/** What events are made of: src/events/Event.h and the topics and ids of src/events/EventBroker.h. */
module Events {
  /** An event, by its signal. */
  type Event = nat

  type Topic = x: nat | x < 0x100

  type SchedId = x: nat | x < 0x1_0000

  const EV_EMPTY: Event := 2
}
