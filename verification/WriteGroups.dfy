/**
 Write groups (libs/restinio/buffers.hpp) and the queue of groups of one response
 (response_context_t). A write group is move-only and never shared, so it is a value;
 the containers that hold groups are updated in place by the classes of
 ResponseCoordinator and Connection.
 */
module WriteGroups {
  import opened Wrappers

  datatype Item = Buffer(data: seq<char>) | File(path: seq<char>, size: nat)

  type Callback = nat

  datatype WriteGroup = WriteGroup(items: seq<Item>, statusLineSize: nat, notificator: Option<Callback>)

  /** What the peer and the application observe: an item written, a callback told "success". */
  datatype Token = Sent(item: Item) | Notified(callback: Callback)

  function ItemTokens(items: seq<Item>): (r: seq<Token>)
    ensures |r| == |items|
  {
    seq(|items|, i requires 0 <= i < |items| => Sent(items[i]))
  }

  function NotifyTokens(n: Option<Callback>): seq<Token> {
    if n.Some? then [Notified(n.value)] else []
  }

  /** The observations a group promises, in order: its items, then its callback. */
  function GroupTokens(wg: WriteGroup): seq<Token> {
    ItemTokens(wg.items) + NotifyTokens(wg.notificator)
  }

  function QueueTokens(groups: seq<WriteGroup>): seq<Token> {
    if groups == [] then [] else QueueTokens(groups[..|groups| - 1]) + GroupTokens(groups[|groups| - 1])
  }

  function Callbacks(n: Option<Callback>): multiset<Callback> {
    if n.Some? then multiset{n.value} else multiset{}
  }

  function QueueCallbacks(groups: seq<WriteGroup>): multiset<Callback> {
    if groups == [] then multiset{}
    else QueueCallbacks(groups[..|groups| - 1]) + Callbacks(groups[|groups| - 1].notificator)
  }

  /** Appends the second group's items; the second group's callback replaces the first's. */
  function Merge(first: WriteGroup, second: WriteGroup): WriteGroup {
    WriteGroup(first.items + second.items, first.statusLineSize, second.notificator)
  }

  /** Merging keeps every observation in place exactly when the first group has no callback. */
  lemma {:induction false} MergeKeepsTokens(a: WriteGroup, b: WriteGroup)
    ensures GroupTokens(Merge(a, b)) == GroupTokens(a) + GroupTokens(b) <==> a.notificator.None?
  {
    assert ItemTokens(a.items + b.items) == ItemTokens(a.items) + ItemTokens(b.items);
    if a.notificator.None? {
      assert ItemTokens(a.items) + [] == ItemTokens(a.items);
    } else {
      assert |GroupTokens(a) + GroupTokens(b)| == |GroupTokens(Merge(a, b))| + 1;
    }
  }

  predicate Mergeable(groups: seq<WriteGroup>, wg: WriteGroup) {
    groups != [] && groups[|groups| - 1].notificator.None? && wg.statusLineSize == 0
  }

  function Enqueue(groups: seq<WriteGroup>, wg: WriteGroup): (r: seq<WriteGroup>)
    ensures r != []
  {
    if Mergeable(groups, wg) then groups[..|groups| - 1] + [Merge(groups[|groups| - 1], wg)]
    else groups + [wg]
  }

  lemma {:induction false} QueueTokensSnoc(groups: seq<WriteGroup>, wg: WriteGroup)
    ensures QueueTokens(groups + [wg]) == QueueTokens(groups) + GroupTokens(wg)
    ensures QueueCallbacks(groups + [wg]) == QueueCallbacks(groups) + Callbacks(wg.notificator)
  {
    assert (groups + [wg])[..|groups|] == groups;
  }

  /** Queueing, merged or not, adds the group's observations and its callback at the end. */
  lemma {:induction false} EnqueueKeepsTokens(groups: seq<WriteGroup>, wg: WriteGroup)
    ensures QueueTokens(Enqueue(groups, wg)) == QueueTokens(groups) + GroupTokens(wg)
    ensures QueueCallbacks(Enqueue(groups, wg)) == QueueCallbacks(groups) + Callbacks(wg.notificator)
  {
    if Mergeable(groups, wg) {
      var init, last := groups[..|groups| - 1], groups[|groups| - 1];
      QueueTokensSnoc(init, Merge(last, wg));
      MergeKeepsTokens(last, wg);
      assert QueueTokens(init) + (GroupTokens(last) + GroupTokens(wg))
          == (QueueTokens(init) + GroupTokens(last)) + GroupTokens(wg);
    } else {
      QueueTokensSnoc(groups, wg);
    }
  }

  /** The status lines that groups begin with, in order, by their sizes. */
  function StatusLines(groups: seq<WriteGroup>): seq<nat> {
    if groups == [] then []
    else
      var last := groups[|groups| - 1];
      StatusLines(groups[..|groups| - 1]) + if last.statusLineSize == 0 then [] else [last.statusLineSize]
  }

  /** No group that could have been merged into the one before it stands alone. */
  ghost predicate Tight(groups: seq<WriteGroup>) {
    forall i :: 0 < i < |groups| ==> groups[i - 1].notificator.Some? || groups[i].statusLineSize != 0
  }

  /** A status line always stays at the beginning of a group, and whatever can be merged is. */
  lemma {:induction false} EnqueueKeepsStatusLines(groups: seq<WriteGroup>, wg: WriteGroup)
    ensures StatusLines(Enqueue(groups, wg)) == StatusLines(groups) + (if wg.statusLineSize == 0 then [] else [wg.statusLineSize])
    ensures Tight(groups) ==> Tight(Enqueue(groups, wg))
  {
    var queue := Enqueue(groups, wg);
    if Mergeable(groups, wg) {
      assert queue[..|queue| - 1] == groups[..|groups| - 1];
      assert StatusLines(groups) + [] == StatusLines(groups);
    } else {
      assert queue[..|queue| - 1] == groups;
    }
  }

  /** The front of the queue comes first. */
  lemma {:induction false} QueueTokensFront(groups: seq<WriteGroup>)
    requires groups != []
    ensures QueueTokens(groups) == GroupTokens(groups[0]) + QueueTokens(groups[1..])
    ensures QueueCallbacks(groups) == Callbacks(groups[0].notificator) + QueueCallbacks(groups[1..])
    decreases |groups|
  {
    var init, last := groups[..|groups| - 1], groups[|groups| - 1];
    hide GroupTokens;
    if init == [] {
      assert groups[1..] == [];
      assert QueueTokens(groups) == [] + GroupTokens(last);
    } else {
      QueueTokensFront(init);
      QueueTokensInner(groups[0], init[1..], last);
      assert groups[1..] == init[1..] + [last] && groups == init + [last];
      QueueTokensSnoc(init, last);
    }
  }

  lemma {:induction false} QueueTokensInner(first: WriteGroup, inner: seq<WriteGroup>, last: WriteGroup)
    ensures GroupTokens(first) + QueueTokens(inner + [last])
         == (GroupTokens(first) + QueueTokens(inner)) + GroupTokens(last)
    ensures Callbacks(first.notificator) + QueueCallbacks(inner + [last])
         == (Callbacks(first.notificator) + QueueCallbacks(inner)) + Callbacks(last.notificator)
  {
    QueueTokensSnoc(inner, last);
  }
}
