/** `EventStore`: stores event bodies, indexes them, answers match queries and
    notifies subscribers. The event and index directories are the `events` and
    `index` maps; subscriber blocks are opaque handler numbers, and `calls`
    records every invocation of a handler in the order it happens (synchronous
    ones inside `write`, asynchronous ones when the worker serves the queue). */
module EventStoreModel {
  import opened OrderedHash
  import opened Scalars
  import opened Clauses
  import opened StoreIndex
  import opened ReadSpec

  /** An entry of `@subscribers`: a block registered with `subscribe`, or the
      proc `subscribe_async` wraps around a block, which only enqueues. */
  datatype Subscriber = Inline(handler: nat) | Deferred(handler: nat)

  /** A handler invoked (or queued to be invoked) with an event. */
  datatype Call = Call(handler: nat, event: Body)

  /** The calls dispatching `e` makes inline, one per `subscribe`d block, in
      registration order. */
  function InlineCalls(subs: seq<Subscriber>, e: Body): seq<Call>
  {
    if subs == [] then []
    else
      InlineCalls(subs[..|subs| - 1], e) +
      match subs[|subs| - 1]
      case Inline(h) => [Call(h, e)]
      case Deferred(_) => []
  }

  /** The `[block, event]` pairs dispatching `e` pushes onto the async queue,
      one per `subscribe_async`ed block, in registration order. */
  function DeferredCalls(subs: seq<Subscriber>, e: Body): seq<Call>
  {
    if subs == [] then []
    else
      DeferredCalls(subs[..|subs| - 1], e) +
      match subs[|subs| - 1]
      case Inline(_) => []
      case Deferred(h) => [Call(h, e)]
  }

  /** Dispatch reaches every `subscribe`d registration exactly once: a handler
      registered `n` times is called `n` times with the event. */
  lemma {:induction false} InlineExactlyOnce(subs: seq<Subscriber>, e: Body, h: nat)
    ensures multiset(InlineCalls(subs, e))[Call(h, e)] == multiset(subs)[Inline(h)]
  {
    if subs != [] {
      var init := subs[..|subs| - 1];
      var last := subs[|subs| - 1];
      InlineExactlyOnce(init, e, h);
      assert subs == init + [last];
      var tail := if last.Inline? then [Call(last.handler, e)] else [];
      assert InlineCalls(subs, e) == InlineCalls(init, e) + tail;
      assert multiset(InlineCalls(subs, e)) == multiset(InlineCalls(init, e)) + multiset(tail);
      assert multiset(subs) == multiset(init) + multiset{last};
      assert multiset(tail)[Call(h, e)] == multiset{last}[Inline(h)];
    }
  }

  /** Dispatch reaches every `subscribe_async`ed registration exactly once: a
      handler registered `n` times is queued `n` times with the event. */
  lemma {:induction false} DeferredExactlyOnce(subs: seq<Subscriber>, e: Body, h: nat)
    ensures multiset(DeferredCalls(subs, e))[Call(h, e)] == multiset(subs)[Deferred(h)]
  {
    if subs != [] {
      var init := subs[..|subs| - 1];
      var last := subs[|subs| - 1];
      DeferredExactlyOnce(init, e, h);
      assert subs == init + [last];
      var tail := if last.Deferred? then [Call(last.handler, e)] else [];
      assert DeferredCalls(subs, e) == DeferredCalls(init, e) + tail;
      assert multiset(DeferredCalls(subs, e)) == multiset(DeferredCalls(init, e)) + multiset(tail);
      assert multiset(subs) == multiset(init) + multiset{last};
      assert multiset(tail)[Call(h, e)] == multiset{last}[Deferred(h)];
    }
  }

  /** One delivery per subscriber, each carrying the dispatched event. */
  lemma {:induction false} DispatchCoversAll(subs: seq<Subscriber>, e: Body)
    ensures |InlineCalls(subs, e)| + |DeferredCalls(subs, e)| == |subs|
    ensures forall c :: c in InlineCalls(subs, e) ==> c.event == e
    ensures forall c :: c in DeferredCalls(subs, e) ==> c.event == e
  {
    if subs != [] {
      DispatchCoversAll(subs[..|subs| - 1], e);
    }
  }

  class EventStore {
    var events: map<Id, Body>
    var index: Index
    var subscribers: seq<Subscriber>
    var asyncQueue: seq<Call>
    var calls: seq<Call>

    /** `EventStore.new(base_dir)` over directories that may already hold
        events and postings; no subscribers, an empty queue. */
    constructor (existingEvents: map<Id, Body>, existingIndex: Index)
      ensures events == existingEvents && index == existingIndex
      ensures subscribers == [] && asyncQueue == [] && calls == []
    {
      events := existingEvents;
      index := existingIndex;
      subscribers := [];
      asyncQueue := [];
      calls := [];
    }

    /** `write(event)` with the freshly generated id `id`: the returned event is
        the input with `"id"` set to `id` (a caller's `"id"` is overwritten,
        every other pair kept); it is stored under `id`; its postings are
        appended and postings only grow; every subscriber is dispatched to once,
        in registration order. */
    method Write(event: Body, id: Id) returns (full: Body)
      requires id !in events
      modifies this
      ensures full == Put(event, "id", Str(id))
      ensures Get(full, "id") == Some(Str(id))
      ensures forall k :: k != "id" ==> Get(full, k) == Get(event, k)
      ensures Keys(full) == Keys(event) + {"id"}
      ensures events == old(events)[id := full] && |events| == |old(events)| + 1
      ensures index == IndexEntries(old(index), full, id)
      ensures Grows(old(index), index)
      ensures subscribers == old(subscribers)
      ensures calls == old(calls) + InlineCalls(subscribers, full)
      ensures asyncQueue == old(asyncQueue) + DeferredCalls(subscribers, full)
    {
      full := Put(event, "id", Str(id));
      events := events[id := full];
      IndexEvent(full, id);
      IndexEntriesGrows(old(index), full, id);
      Dispatch(full);
    }

    /** `index_event(event)`: for each pair except `"id"`, append the event's
        id to the posting file of `(key, value.to_s)`. */
    method IndexEvent(e: Body, id: Id)
      requires Get(e, "id") == Some(Str(id))
      modifies this`index
      ensures index == IndexEntries(old(index), e, id)
    {
      for i := 0 to |e|
        invariant index == IndexEntries(old(index), e[..i], id)
      {
        assert e[..i + 1][..i] == e[..i];
        var (key, value) := e[i];
        if key != "id" {
          index := Post(index, key, ToS(value), id);
        }
      }
      assert e[..|e|] == e;
    }

    /** `dispatch(event)`: call each subscriber in registration order. */
    method Dispatch(e: Body)
      modifies this`calls, this`asyncQueue
      ensures calls == old(calls) + InlineCalls(subscribers, e)
      ensures asyncQueue == old(asyncQueue) + DeferredCalls(subscribers, e)
    {
      for i := 0 to |subscribers|
        invariant calls == old(calls) + InlineCalls(subscribers[..i], e)
        invariant asyncQueue == old(asyncQueue) + DeferredCalls(subscribers[..i], e)
      {
        assert subscribers[..i + 1][..i] == subscribers[..i];
        match subscribers[i] {
          case Inline(h) =>
            calls := calls + [Call(h, e)];
          case Deferred(h) =>
            asyncQueue := asyncQueue + [Call(h, e)];
        }
      }
      assert subscribers[..|subscribers|] == subscribers;
    }

    /** `subscribe(&block)`. */
    method Subscribe(handler: nat)
      modifies this`subscribers
      ensures subscribers == old(subscribers) + [Inline(handler)]
    {
      subscribers := subscribers + [Inline(handler)];
    }

    /** `subscribe_async(&block)`: registers the enqueueing wrapper. */
    method SubscribeAsync(handler: nat)
      modifies this`subscribers
      ensures subscribers == old(subscribers) + [Deferred(handler)]
    {
      subscribers := subscribers + [Deferred(handler)];
    }

    /** One turn of the background worker: pop the oldest queued pair and call
        its block with its event. On an empty queue the worker waits and
        nothing changes. */
    method ServeAsync() returns (served: bool)
      modifies this`asyncQueue, this`calls
      ensures served <==> old(asyncQueue) != []
      ensures served ==> asyncQueue == old(asyncQueue)[1..] && calls == old(calls) + [old(asyncQueue)[0]]
      ensures !served ==> asyncQueue == old(asyncQueue) && calls == old(calls)
    {
      served := asyncQueue != [];
      if served {
        var next := asyncQueue[0];
        asyncQueue := asyncQueue[1..];
        calls := calls + [next];
      }
    }

    /** Resolve a type alternation under one index key: the ids of every posting
        file `Dir.glob` lists whose value name matches, duplicates removed. The
        files are taken in any order (`Dir.glob` sorts by name only since
        Ruby 3.0), so the order across files is left open. */
    method ResolvePattern(postings: map<string, seq<Id>>, names: set<string>) returns (ids: seq<Id>)
      ensures ResolvedAs(postings, TypeIn(names), ids)
    {
      var files := postings.Keys;
      ghost var seen: set<string> := {};
      var acc: seq<Id> := [];
      while files != {}
        invariant files + seen == postings.Keys
        invariant forall id :: id in acc <==> exists n :: n in seen && Globbed(n) && Matches(names, n) && id in postings[n]
        decreases files
      {
        var n :| n in files;
        if Globbed(n) && Matches(names, n) {
          acc := acc + postings[n];
        }
        files := files - {n};
        seen := seen + {n};
      }
      ids := Uniq(acc);
    }

    /** `read(match:)`: resolve each indexed key of the clause in order, skip the
        keys with no index directory, and return the bodies of the ids common to
        all resolved lists. The ghost `resolved` is `matched_id_sets`; together
        with `ReadMeaning` and `ReadOrder` it says which events come back and in
        which order. */
    method Read(clause: Clause) returns (result: seq<Body>, ghost resolved: seq<seq<Id>>)
      ensures Resolves(index, clause, resolved)
      ensures result == ReadResult(events, resolved)
      ensures clause == [] ==> result == []
    {
      if |clause| == 0 {
        return [], [];
      }
      var sets: seq<seq<Id>> := [];
      for i := 0 to |clause|
        invariant Resolves(index, clause[..i], sets)
      {
        assert clause[..i + 1][..i] == clause[..i];
        var (key, value) := clause[i];
        if key in index {
          var ids: seq<Id>;
          match value {
            case Equals(v) =>
              ids := PlainList(index[key], v);
            case TypeIn(names) =>
              ids := ResolvePattern(index[key], names);
          }
          sets := sets + [ids];
        }
      }
      assert clause[..|clause|] == clause;
      resolved := sets;
      if sets == [] || exists j :: 0 <= j < |sets| && sets[j] == [] {
        return [], resolved;
      }
      var matched := Reduce(sets);
      result := Bodies(events, matched);
    }
  }
}
