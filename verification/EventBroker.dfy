/**
 The broker of src/events/EventBroker.cpp with the handlers and queues it posts to
 (src/events/EventHandler.h, src/collections/SyncQueue.h). The contracts tie every method to
 the steps of EventScheduling and to the multiplicities of EventDelivery.
 */
module EventBroker {
  import opened Events
  import opened Wrappers
  import S = EventScheduling
  import D = EventDelivery

  class SynchronizedQueue<T> {
    var queue: seq<T>

    constructor ()
      ensures queue == []
    {
      queue := [];
    }

    method Put(data: T)
      modifies this
      ensures queue == old(queue) + [data]
    {
      queue := queue + [data];
    }

    /** The wait until the queue has an element is the precondition. */
    method Get() returns (data: T)
      requires queue != []
      modifies this
      ensures old(queue) == [data] + queue
    {
      data := queue[0];
      queue := queue[1..];
    }
  }

  class EventHandler {
    const eventList: SynchronizedQueue<Event>
    var started: bool
    var stopped: bool
    var shouldStop: bool
    var handled: seq<Event>    // what handleEvent has been called with

    constructor ()
      ensures fresh(eventList) && eventList.queue == [] && handled == [] && !started && !stopped && !shouldStop
    {
      eventList := new SynchronizedQueue();
      started, stopped, shouldStop, handled := false, false, false, [];
    }

    method Start() returns (launched: bool)
      modifies this`started
      ensures launched <==> !old(started) && !stopped
      ensures started == (old(started) || launched)
    {
      launched := !started && !stopped;
      if launched { started := true; }
    }

    method PostEvent(event: Event)
      modifies eventList
      ensures eventList.queue == old(eventList.queue) + [event]
    {
      eventList.Put(event);
    }

    /** Nothing happens unless the handler is running; joining its thread is left to the environment. */
    method Stop()
      modifies this`shouldStop, this`stopped, eventList
      ensures shouldStop == (old(shouldStop) || (started && !old(stopped)))
      ensures stopped == (old(stopped) || started)
      ensures eventList.queue == old(eventList.queue) + if started && !old(stopped) then [EV_EMPTY] else []
    {
      if started && !stopped {
        shouldStop := true;
        eventList.Put(EV_EMPTY);
        stopped := true;
      }
    }

    /** run() until its queue would make it wait or it is told to stop: it handles from the front, in order. */
    method Run()
      modifies this`handled, eventList
      ensures handled + eventList.queue == old(handled + eventList.queue)
      ensures if shouldStop then handled == old(handled) else eventList.queue == []
    {
      while !shouldStop && eventList.queue != []
        invariant handled + eventList.queue == old(handled + eventList.queue)
        invariant shouldStop ==> handled == old(handled)
        decreases |eventList.queue|
      {
        ghost var before := eventList.queue;
        var event := eventList.Get();
        assert handled + before == handled + [event] + eventList.queue;
        handled := handled + [event];
      }
    }
  }

  datatype DelayedEvent = DelayedEvent(schedId: SchedId, event: Event, topic: Topic, deadline: int)

  function Plain(t: S.Timer): (d: DelayedEvent) {
    DelayedEvent(S.IdOf(t.ticket), t.event, t.topic, t.deadline)
  }

  /** subscribers.at(topic) on a topic that nobody ever subscribed to. */
  datatype Thrown = OutOfRange

  lemma {:induction false} WithoutStep(subs: seq<EventHandler>, it: nat, h: EventHandler)
    requires it < |subs|
    ensures var erased := subs[..it] + subs[it + 1..];
            subs[..it] + D.Without(subs[it..], h) ==
            if subs[it] == h then erased[..it] + D.Without(erased[it..], h) else subs[..it + 1] + D.Without(subs[it + 1..], h)
  {
    var erased, rest := subs[..it] + subs[it + 1..], subs[it..];
    assert rest[1..] == subs[it + 1..] && rest[0] == subs[it];
    if subs[it] == h {
      assert erased[..it] == subs[..it] && erased[it..] == subs[it + 1..];
    } else {
      assert subs[..it] + [subs[it]] == subs[..it + 1];
    }
  }

  lemma {:induction false} WithoutNothing(subs: seq<EventHandler>, it: nat, h: EventHandler)
    requires it == |subs|
    ensures subs[..it] + D.Without(subs[it..], h) == subs
  {
    assert subs[it..] == [];
  }

  /** Inserting an event into the list is inserting it into what the list stands for. */
  lemma {:induction false} InsertIsPlain(pending: seq<S.Timer>, events: seq<DelayedEvent>, t: S.Timer)
    requires |events| == |pending| && forall i :: 0 <= i < |events| ==> events[i] == Plain(pending[i])
    ensures var k, r := S.Slot(pending, t.deadline), S.Insert(pending, t);
            var events' := events[..k] + [Plain(t)] + events[k..];
            |events'| == |r| && forall i :: 0 <= i < |events'| ==> events'[i] == Plain(r[i])
  {
    hide Plain, S.Slot;
  }

  lemma {:induction false} NextId(n: nat)
    ensures (S.IdOf(n) + 1) % 0x1_0000 == S.IdOf(n + 1)
  {
  }

  lemma {:induction false} ListsAfterSnoc(history: seq<D.Op<EventHandler>>, op: D.Op<EventHandler>)
    ensures D.ListsAfter(history + [op]) == D.Subscribed(D.ListsAfter(history), op)
  {
    assert (history + [op])[..|history|] == history;
  }

  lemma {:induction false} NoCopies(event: Event)
    ensures D.Copies(event, 0) == []
    ensures forall h: EventHandler :: D.Count([], h) == 0
  {
  }

  lemma {:induction false} CopiesSnoc(event: Event, n: nat)
    ensures D.Copies(event, n) + [event] == D.Copies(event, n + 1)
  {
    if n > 0 { CopiesSnoc(event, n - 1); }
  }

  /** `scheduler` and `history` say what this broker has done so far, in the terms of the two step systems. */
  class EventBroker {
    var delayedEvents: seq<DelayedEvent>
    var subscribers: map<Topic, seq<EventHandler>>
    var eventCounter: SchedId
    ghost var scheduler: S.Scheduler
    ghost var history: seq<D.Op<EventHandler>>

    ghost predicate Valid()
      reads this
    {
      && |delayedEvents| == |scheduler.pending|
      && (forall i :: 0 <= i < |delayedEvents| ==> delayedEvents[i] == Plain(scheduler.pending[i]))
      && eventCounter == S.IdOf(|scheduler.log|)
      && scheduler.taken.None?
      && subscribers == D.ListsAfter(history)
    }

    constructor ()
      ensures Valid() && scheduler == S.Start() && history == []
    {
      delayedEvents, subscribers, eventCounter, scheduler, history := [], map[], 0, S.Start(), [];
    }

    method PostDelayed(event: Event, topic: Topic, delayMs: nat, now: int) returns (schedId: SchedId)
      requires Valid()
      modifies this`delayedEvents, this`eventCounter, this`scheduler
      ensures Valid()
      ensures scheduler == S.Next(old(scheduler), S.PostDelayed(event, topic, now + delayMs))
      ensures schedId == S.IdOf(|old(scheduler.log)|)
    {
      hide S.Insert, S.Slot;
      schedId := eventCounter;
      eventCounter := (eventCounter + 1) % 0x1_0000;
      NextId(|scheduler.log|);
      hide S.IdOf;
      var deadline := now + delayMs;
      var added := false;
      ghost var t := S.Timer(|scheduler.log|, event, topic, deadline);
      ghost var k := S.Slot(scheduler.pending, deadline);
      var i := 0;
      while i < |delayedEvents| && !added
        invariant i <= |delayedEvents| && scheduler == old(scheduler) && eventCounter == S.IdOf(|scheduler.log| + 1)
        invariant !added ==> delayedEvents == old(delayedEvents) && i <= k
        invariant added ==> delayedEvents == old(delayedEvents)[..k] + [Plain(t)] + old(delayedEvents)[k..]
        decreases !added, |delayedEvents| - i
      {
        if deadline < delayedEvents[i].deadline {
          assert i == k;
          delayedEvents := delayedEvents[..i] + [DelayedEvent(schedId, event, topic, deadline)] + delayedEvents[i..];
          added := true;
        } else {
          i := i + 1;
        }
      }
      if !added {
        assert delayedEvents == delayedEvents[..k] && delayedEvents[k..] == [];
        delayedEvents := delayedEvents + [DelayedEvent(schedId, event, topic, deadline)];
      }
      InsertIsPlain(scheduler.pending, old(delayedEvents), t);
      scheduler := S.Next(scheduler, S.PostDelayed(event, topic, deadline));
    }

    method RemoveDelayed(id: SchedId)
      requires Valid()
      modifies this`delayedEvents, this`scheduler
      ensures Valid()
      ensures scheduler == S.Next(old(scheduler), S.RemoveDelayed(id))
    {
      ghost var k := S.Find(scheduler.pending, id);
      var i := 0;
      while i < |delayedEvents|
        invariant i <= k && i <= |delayedEvents| && delayedEvents == old(delayedEvents)
      {
        if delayedEvents[i].schedId == id {
          assert i == k;
          delayedEvents := delayedEvents[..i] + delayedEvents[i + 1..];
          break;
        }
        i := i + 1;
      }
      scheduler := S.Next(scheduler, S.RemoveDelayed(id));
    }

    method ClearDelayedEvents()
      requires Valid()
      modifies this`delayedEvents, this`scheduler
      ensures Valid()
      ensures scheduler == S.Next(old(scheduler), S.Clear)
    {
      delayedEvents := [];
      scheduler := S.Next(scheduler, S.Clear);
    }

    /** One turn of run() after its wait: a due front event is taken off the list, then posted. */
    method RunTurn(now: int)
      requires Valid() && Separate()
      modifies this`delayedEvents, this`scheduler, this`history, Queues()
      ensures Valid()
      ensures scheduler == S.Next(S.Next(old(scheduler), S.TakeDue(now)), S.PostTaken)
      ensures if scheduler == old(scheduler) then
                history == old(history) && forall q :: q in Queues() ==> q.queue == old(q.queue)
              else
                var t := old(scheduler.pending[0]);
                history == old(history) + [D.Post(t.event, t.topic)] && forall h :: h in Handlers() ==>
                  h.eventList.queue == old(h.eventList.queue) + D.Copies(t.event, D.Multiplicity(old(history), h, t.topic))
    {
      hide D.ListsAfter, D.Multiplicity, D.Copies;
      if |delayedEvents| > 0 {
        if delayedEvents[0].deadline <= now {
          var dev := delayedEvents[0];
          delayedEvents := delayedEvents[1..];
          scheduler := S.Next(scheduler, S.TakeDue(now));
          Post(dev.event, dev.topic);
          scheduler := S.Next(scheduler, S.PostTaken);
        }
      }
    }

    // ------------------------------------------------------------- subscribers

    ghost function Handlers(): (r: set<EventHandler>)
      reads this`subscribers
    {
      set t, h | t in subscribers && h in subscribers[t] :: h
    }

    ghost function Queues(): (r: set<SynchronizedQueue<Event>>)
      reads this`subscribers
    {
      set h | h in Handlers() :: h.eventList
    }

    /** Each handler has a queue of its own. */
    ghost predicate Separate()
      reads this`subscribers
    {
      forall g, h :: g in Handlers() && h in Handlers() && g.eventList == h.eventList ==> g == h
    }

    /** Every queue gains just what the post adds to what its handler is owed. */
    method Post(event: Event, topic: Topic)
      requires subscribers == D.ListsAfter(history) && Separate()
      modifies this`history, Queues()
      ensures subscribers == D.ListsAfter(history) && history == old(history) + [D.Post(event, topic)]
      ensures forall h :: h in Handlers() ==>
                h.eventList.queue == old(h.eventList.queue) + D.Copies(event, D.Multiplicity(old(history), h, topic))
      ensures forall h :: h in Handlers() ==>
                D.Owed(history, h) == D.Owed(old(history), h) + D.Copies(event, D.Multiplicity(old(history), h, topic))
    {
      hide D.ListsAfter, D.Multiplicity, D.Owed, D.Copies, D.Count;
      Deliver(event, topic);
      history := history + [D.Post(event, topic)];
      assert subscribers == D.ListsAfter(history) by { ListsAfterSnoc(old(history), D.Post(event, topic)); }
      forall h | h in Handlers()
        ensures D.Count(D.At(subscribers, topic), h) == D.Multiplicity(old(history), h, topic)
        ensures D.Owed(history, h) == D.Owed(old(history), h) + D.Copies(event, D.Multiplicity(old(history), h, topic))
      {
        D.ListsCount(old(history), h, topic);
        D.HistorySnoc(old(history), D.Post(event, topic), h, topic);
      }
    }

    /** The loop over the subscribers of a topic. */
    method Deliver(event: Event, topic: Topic)
      requires Separate()
      modifies Queues()
      ensures forall h :: h in Handlers() ==>
                h.eventList.queue == old(h.eventList.queue) + D.Copies(event, D.Count(D.At(subscribers, topic), h))
    {
      hide D.Count, D.Copies;
      NoCopies(event);
      if topic in subscribers {
        var subs := subscribers[topic];
        assert forall h :: h in subs ==> h in Handlers();
        assert subs[..0] == [];
        for i := 0 to |subs|
          invariant forall h :: h in Handlers() ==>
                      h.eventList.queue == old(h.eventList.queue) + D.Copies(event, D.Count(subs[..i], h))
        {
          var sub := subs[i];
          label before:
          sub.PostEvent(event);
          assert subs[..i + 1] == subs[..i] + [sub];
          forall h | h in Handlers()
            ensures h.eventList.queue == old(h.eventList.queue) + D.Copies(event, D.Count(subs[..i + 1], h))
          {
            D.OneMore(subs[..i], sub, h);
            if h == sub {
              CopiesSnoc(event, D.Count(subs[..i], sub));
            } else {
              assert h.eventList != sub.eventList;
              assert h.eventList.queue == old@before(h.eventList.queue);
            }
          }
        }
        assert subs[..|subs|] == subs;
      }
    }

    method Subscribe(subscriber: EventHandler, topic: Topic)
      requires subscribers == D.ListsAfter(history)
      modifies this`subscribers, this`history
      ensures subscribers == D.ListsAfter(history) && history == old(history) + [D.Subscribe(subscriber, topic)]
    {
      if topic !in subscribers { subscribers := subscribers[topic := []]; }
      subscribers := subscribers[topic := subscribers[topic] + [subscriber]];
      Record(D.Subscribe(subscriber, topic), old(subscribers));
    }

    method Unsubscribe(subscriber: EventHandler, topic: Topic) returns (r: Result<(), Thrown>)
      requires subscribers == D.ListsAfter(history)
      modifies this`subscribers, this`history
      ensures r.Ok? <==> topic in old(subscribers)
      ensures subscribers == D.ListsAfter(history) && history == old(history) + [D.Unsubscribe(subscriber, topic)]
      ensures r.Err? ==> subscribers == old(subscribers)
    {
      r := Err(OutOfRange);
      if topic in subscribers {
        var subs := DeleteSubscriber(subscribers[topic], subscriber);
        subscribers := subscribers[topic := subs];
        r := Ok(());
      }
      Record(D.Unsubscribe(subscriber, topic), old(subscribers));
    }

    method UnsubscribeAll(subscriber: EventHandler)
      requires subscribers == D.ListsAfter(history)
      modifies this`subscribers, this`history
      ensures subscribers == D.ListsAfter(history) && history == old(history) + [D.UnsubscribeAll(subscriber)]
    {
      var left := subscribers.Keys;
      while left != {}
        invariant history == old(history)
        invariant left <= subscribers.Keys == old(subscribers).Keys
        invariant forall t :: t in subscribers.Keys ==>
                    (subscribers[t] == if t in left then old(subscribers)[t] else D.Without(old(subscribers)[t], subscriber))
        decreases |left|
      {
        var t :| t in left;
        var subs := DeleteSubscriber(subscribers[t], subscriber);
        subscribers := subscribers[t := subs];
        left := left - {t};
      }
      Record(D.UnsubscribeAll(subscriber), old(subscribers));
    }

    ghost method Record(op: D.Op<EventHandler>, before: map<Topic, seq<EventHandler>>)
      requires before == D.ListsAfter(history) && subscribers == D.Subscribed(before, op)
      modifies this`history
      ensures history == old(history) + [op] && subscribers == D.ListsAfter(history)
    {
      ListsAfterSnoc(history, op);
      history := history + [op];
    }

    static method DeleteSubscriber(list: seq<EventHandler>, subscriber: EventHandler) returns (subs: seq<EventHandler>)
      ensures subs == D.Without(list, subscriber)
    {
      hide D.Without;
      subs := list;
      var it := 0;
      assert [] + list == list;
      while it != |subs|
        invariant 0 <= it <= |subs|
        invariant D.Without(list, subscriber) == subs[..it] + D.Without(subs[it..], subscriber)
        decreases |subs| - it
      {
        WithoutStep(subs, it, subscriber);
        if subs[it] == subscriber {
          subs := subs[..it] + subs[it + 1..];
        } else {
          it := it + 1;
        }
      }
      WithoutNothing(subs, it, subscriber);
    }
  }
}
