/** The order in which the subscribers of a topic are told, from the history of subscriptions alone. */
module SubscriberOrder {
  import opened Events
  import opened Wrappers
  import opened EventDelivery

  /** Does this critical section end the subscriptions of `h` to `topic`? */
  predicate Ends<H(==)>(op: Op<H>, h: H, topic: Topic) {
    match op
    case Unsubscribe(g, t) => g == h && t == topic
    case UnsubscribeAll(g) => g == h
    case _ => false
  }

  /** The k-th critical section is a subscription to `topic` that no later one has ended. */
  ghost predicate Stands<H>(history: seq<Op<H>>, k: nat, topic: Topic)
    requires k < |history|
  {
    && history[k].Subscribe? && history[k].topic == topic
    && forall j :: k < j < |history| ==> !Ends(history[j], history[k].h, topic)
  }

  ghost function One<H>(history: seq<Op<H>>, k: nat, topic: Topic): (r: seq<H>)
    requires k < |history|
  {
    if Stands(history, k, topic) then [history[k].h] else []
  }

  /** Whose subscriptions among the first `n` critical sections still stand, in their order. */
  ghost function Standing<H>(history: seq<Op<H>>, n: nat, topic: Topic): (r: seq<H>)
    requires n <= |history|
  {
    if n == 0 then [] else Standing(history, n - 1, topic) + One(history, n - 1, topic)
  }

  lemma {:induction false} WithoutAppend<T>(a: seq<T>, b: seq<T>, x: T)
    ensures Without(a + b, x) == Without(a, x) + Without(b, x)
    decreases |a|
  {
    if a == [] {
      assert a + b == b;
    } else {
      assert (a + b)[1..] == a[1..] + b;
      WithoutAppend(a[1..], b, x);
    }
  }

  lemma {:induction false} WithoutOne<H>(h: H, g: H)
    ensures Without([h], g) == if h == g then [] else [h]
  {
    assert [h][1..] == [] && Without([], g) == [];
  }

  /** What a further critical section leaves of the handlers that are subscribed to a topic. */
  function Left<H(==)>(hs: seq<H>, op: Op<H>, topic: Topic): (r: seq<H>) {
    match op
    case Unsubscribe(h, t) => if t == topic then Without(hs, h) else hs
    case UnsubscribeAll(h) => Without(hs, h)
    case _ => hs
  }

  lemma {:induction false} LeftAppend<H>(a: seq<H>, b: seq<H>, op: Op<H>, topic: Topic)
    ensures Left(a + b, op, topic) == Left(a, op, topic) + Left(b, op, topic)
  {
    if op.Unsubscribe? || op.UnsubscribeAll? { WithoutAppend(a, b, op.h); }
  }

  lemma {:induction false} LeftOfOne<H>(h: H, op: Op<H>, topic: Topic)
    ensures Left([h], op, topic) == if Ends(op, h, topic) then [] else [h]
  {
    if op.Unsubscribe? || op.UnsubscribeAll? { WithoutOne(h, op.h); }
  }

  lemma {:induction false} OneAfter<H>(history: seq<Op<H>>, op: Op<H>, k: nat, topic: Topic)
    requires k < |history|
    ensures One(history + [op], k, topic) == Left(One(history, k, topic), op, topic)
  {
    hide Left, Ends;
    var longer := history + [op];
    assert longer[|history|] == op;
    assert forall j :: 0 <= j < |history| ==> longer[j] == history[j];
    if history[k].Subscribe? { LeftOfOne(history[k].h, op, topic); }
    LeftOfNone(op, topic);
  }

  lemma {:induction false} LeftOfNone<H>(op: Op<H>, topic: Topic)
    ensures Left([], op, topic) == []
  {
  }

  lemma {:induction false} StandingAfter<H>(history: seq<Op<H>>, op: Op<H>, n: nat, topic: Topic)
    requires n <= |history|
    ensures Standing(history + [op], n, topic) == Left(Standing(history, n, topic), op, topic)
    decreases n
  {
    hide One, Left;
    if n == 0 {
      LeftOfNone(op, topic);
    } else {
      StandingAfter(history, op, n - 1, topic);
      OneAfter(history, op, n - 1, topic);
      LeftAppend(Standing(history, n - 1, topic), One(history, n - 1, topic), op, topic);
    }
  }

  /** A critical section does to the list of a topic what it should. */
  lemma {:induction false} SubscribedList<H>(subs: Subscribers<H>, op: Op<H>, topic: Topic)
    ensures At(Subscribed(subs, op), topic) ==
            Left(At(subs, topic), op, topic) + if op.Subscribe? && op.topic == topic then [op.h] else []
  {
    var left := Left(At(subs, topic), op, topic);
    assert left + [] == left;
  }

  /** The list of a topic holds the subscriptions to it that stand, in the order in which they were made. */
  lemma {:induction false} ListsAreInOrder<H>(history: seq<Op<H>>, topic: Topic)
    ensures At(ListsAfter(history), topic) == Standing(history, |history|, topic)
    decreases |history|
  {
    hide One, Left, Standing, Subscribed;
    if history == [] {
      NoneStands<H>(topic);
    } else {
      var before, op := history[..|history| - 1], history[|history| - 1];
      assert history == before + [op];
      ListsAreInOrder(before, topic);
      StandingAfter(before, op, |before|, topic);
      NewestStands(before, op, topic);
      SubscribedList(ListsAfter(before), op, topic);
    }
  }

  lemma {:induction false} NoneStands<H>(topic: Topic)
    ensures Standing<H>([], 0, topic) == []
  {
  }

  lemma {:induction false} NewestStands<H>(history: seq<Op<H>>, op: Op<H>, topic: Topic)
    ensures var longer := history + [op];
            Standing(longer, |longer|, topic) ==
            Standing(longer, |history|, topic) + if op.Subscribe? && op.topic == topic then [op.h] else []
  {
    assert (history + [op])[|history|] == op;
  }

  lemma {:induction false} RunLists<H>(steps: seq<Step<H>>)
    ensures Run(steps).subscribers == ListsAfter(Run(steps).history)
    decreases |steps|
  {
    hide Next;
    if steps != [] {
      RunLists(steps[..|steps| - 1]);
      StepLists(Run(steps[..|steps| - 1]), steps[|steps| - 1]);
    }
  }

  lemma {:induction false} ListsSnoc<H>(history: seq<Op<H>>, op: Op<H>)
    ensures ListsAfter(history + [op]) == Subscribed(ListsAfter(history), op)
  {
    hide Subscribed;
    assert (history + [op])[..|history|] == history;
  }

  lemma {:induction false} StepLists<H>(s: Delivery<H>, step: Step<H>)
    requires s.subscribers == ListsAfter(s.history)
    ensures Next(s, step).subscribers == ListsAfter(Next(s, step).history)
  {
    hide Subscribed, ListsAfter, At;
    if step.Enter? { ListsSnoc(s.history, step.op); }
  }

  /** `n` puts of the post in progress with no other step in between. */
  function Puts<H(==)>(s: Delivery<H>, n: nat): (s': Delivery<H>) {
    if n == 0 then s else Next(Puts(s, n - 1), PutNext)
  }

  lemma {:induction false} PutsInOrder<H>(s: Delivery<H>, n: nat, h: H)
    requires s.posting.Some? && n <= |s.posting.value.rest|
    ensures var p, s' := s.posting.value, Puts(s, n);
            && s'.posting == Some(Posting(p.event, p.rest[n..]))
            && At(s'.queues, h) == At(s.queues, h) + Entries(p.event, Count(p.rest[..n], h))
    decreases n
  {
    hide At, Next;
    var p := s.posting.value;
    if n == 0 {
      assert At(s.queues, h) + [] == At(s.queues, h) && p.rest[0..] == p.rest;
    } else {
      PutsInOrder(s, n - 1, h);
      OnePut(Puts(s, n - 1), h);
      assert p.rest[n - 1..][1..] == p.rest[n..];
      assert p.rest[..n] == p.rest[..n - 1] + [p.rest[n - 1]];
      OneMore(p.rest[..n - 1], p.rest[n - 1], h);
      EntriesMore(p.event, Count(p.rest[..n - 1], h));
    }
  }

  lemma {:induction false} EntriesMore(event: Event, n: nat)
    ensures Entries(event, n + 1) == Entries(event, n) + [Posted(event)]
    decreases n
  {
    if n > 0 { EntriesMore(event, n - 1); }
  }

  /**
   A post tells the subscribers of its topic one after the other, in the order in which they subscribed:
   after `n` puts just the first `n` subscriptions that stand have been served.
   */
  lemma {:induction false} SubscribersAreToldInOrder<H>(steps: seq<Step<H>>, event: Event, topic: Topic, n: nat, h: H)
    requires Run(steps).posting.None? && n <= |Standing(Run(steps).history, |Run(steps).history|, topic)|
    ensures var s := Run(steps);
            var told := Standing(s.history, |s.history|, topic);
            var s' := Puts(Next(s, Enter(Post(event, topic))), n);
            && s'.posting == Some(Posting(event, told[n..]))
            && At(s'.queues, h) == At(s.queues, h) + Entries(event, Count(told[..n], h))
  {
    hide Run, Puts, Entries, Standing, Subscribed;
    RunLists(steps);
    ListsAreInOrder(Run(steps).history, topic);
    PutsInOrder(Next(Run(steps), Enter(Post(event, topic))), n, h);
  }

  /** `n` turns of a handler's run(). */
  function Takes<H(==)>(s: Delivery<H>, h: H, n: nat): (s': Delivery<H>) {
    if n == 0 then s else Next(Takes(s, h, n - 1), Take(h))
  }

  lemma {:induction false} OneTake<H>(s: Delivery<H>, h: H)
    requires At(s.queues, h) != []
    ensures var q, s' := At(s.queues, h), Next(s, Take(h));
            At(s'.handled, h) == At(s.handled, h) + [q[0]] && At(s'.queues, h) == q[1..]
  {
  }

  /** Each turn handles the oldest entry that is queued, so that many turns leave nothing queued. */
  lemma {:induction false} TurnsEmptyTheQueue<H>(s: Delivery<H>, h: H, n: nat)
    requires n <= |At(s.queues, h)|
    ensures var q, s' := At(s.queues, h), Takes(s, h, n);
            At(s'.handled, h) == At(s.handled, h) + q[..n] && At(s'.queues, h) == q[n..]
    decreases n
  {
    hide At, Next;
    var q, handled := At(s.queues, h), At(s.handled, h);
    if n == 0 {
      assert handled + [] == handled && q[0..] == q;
    } else {
      TurnsEmptyTheQueue(s, h, n - 1);
      OneTake(Takes(s, h, n - 1), h);
      assert handled + q[..n - 1] + [q[n - 1]] == handled + q[..n];
      assert q[n - 1..][1..] == q[n..];
    }
  }
}
