/** How the query model and the store fit together: which clauses find which
    written events, and what the `data.`-prefixed clauses of
    `Kroniko::QueryItem` do against an index of flat keys. */
module StoreQueries {
  import opened OrderedHash
  import opened Scalars
  import opened Clauses
  import opened StoreIndex
  import opened ReadSpec
  import KronikoQueryItem
  import KronikoQuery
  import FlatQueryItem

  /** A value `Get` returns comes from a pair of the hash. */
  lemma GetSome(h: Body, k: string, v: Scalar)
    requires Get(h, k) == Some(v)
    ensures exists i :: 0 <= i < |h| && h[i] == (k, v)
  {
    InKeys(h, k);
    var i :| 0 <= i < |h| && h[i].0 == k;
    GetAt(h, i);
  }

  /** Every pair of a clause is a plain value the body holds under a key other
      than `"id"`. */
  predicate PlainlyHeldBy(clause: Clause, body: Body)
  {
    forall j :: 0 <= j < |clause| ==>
      && clause[j].0 != "id"
      && clause[j].1.Equals?
      && Get(body, clause[j].0) == Some(clause[j].1.v)
  }

  /** Once `body` is written under `id`, a non-empty clause of plain values the
      body holds finds it: every key of the clause now has an index directory,
      the id is in the posting file of each value, and `read` returns the body
      (whatever else it returns). */
  lemma WrittenEventIsFound(events: map<Id, Body>, ix: Index, body: Body, id: Id,
                            clause: Clause, resolved: seq<seq<Id>>)
    requires clause != [] && PlainlyHeldBy(clause, body)
    requires Resolves(IndexEntries(ix, body, id), clause, resolved)
    ensures body in ReadResult(events[id := body], resolved)
  {
    var ix' := IndexEntries(ix, body, id);
    var events' := events[id := body];
    forall j | 0 <= j < |clause|
      ensures clause[j].0 in ix' && Satisfies(ix'[clause[j].0], clause[j].1, id)
    {
      var (k, c) := clause[j];
      GetSome(body, k, c.v);
      assert Emits(body, k, ToS(c.v));
      IndexEntriesAt(ix, body, id, k, ToS(c.v));
    }
    assert AnyIndexed(ix', clause);
    assert SatisfiesAll(ix', clause, id);
    ReadMeaning(events', ix', clause, resolved);
    var live := Live(events', MatchedIds(resolved));
    assert id in live;
    var j :| 0 <= j < |live| && live[j] == id;
    assert ReadResult(events', resolved)[j] == body;
  }

  /** The clause of a top-level item with no types is its properties, so when
      the written body holds every property (none named `"id"`), the item's
      one variant finds it. */
  lemma FlatItemFindsWrittenEvent(events: map<Id, Body>, ix: Index, body: Body, id: Id,
                                  item: FlatQueryItem.QueryItem, resolved: seq<seq<Id>>)
    requires item.types == [] && item.properties != []
    requires forall i :: 0 <= i < |item.properties| ==>
               item.properties[i].0 != "id" && Get(body, item.properties[i].0) == Some(item.properties[i].1)
    requires Resolves(IndexEntries(ix, body, id), FlatQueryItem.ToMatchVariants(item)[0], resolved)
    ensures body in ReadResult(events[id := body], resolved)
  {
    var clause := FlatQueryItem.ToMatchVariants(item)[0];
    assert clause == FlatQueryItem.AsConditions(item.properties);
    WrittenEventIsFound(events, ix, body, id, clause, resolved);
  }

  /** Against an index with no `data.<attribute>` directory, the
      `"data.<k>"` keys of a `Kroniko::QueryItem` clause are all skipped: the
      clause resolves exactly as its `"type"` part alone. */
  lemma {:induction false} DataKeysUnconstrained(ix: Index, item: KronikoQueryItem.QueryItem, n: nat,
                                                 resolved: seq<seq<Id>>)
    requires NoDataKeys(ix) && n <= |item.properties|
    ensures Resolves(ix, KronikoQueryItem.ClausePrefix(item, n), resolved) <==>
            Resolves(ix, KronikoQueryItem.TypePart(item.types), resolved)
  {
    if n > 0 {
      DataKeysUnconstrained(ix, item, n - 1, resolved);
      var (k, v) := item.properties[n - 1];
      var key := KronikoQueryItem.DataKey(k);
      assert KronikoQueryItem.ClausePrefix(item, n) ==
             KronikoQueryItem.ClausePrefix(item, n - 1) + [(key, Equals(v))];
      assert IsDataKey(key);
      UnindexedKeyIgnored(ix, KronikoQueryItem.ClausePrefix(item, n - 1), key, Equals(v), resolved);
    } else {
      assert KronikoQueryItem.ClausePrefix(item, 0) == KronikoQueryItem.TypePart(item.types);
    }
  }

  /** Consequently, against such an index, a `Kroniko::QueryItem` reads the same
      events as an item with its types and no properties; one without types
      reads nothing at all. */
  lemma LibItemIgnoresProperties(events: map<Id, Body>, ix: Index, item: KronikoQueryItem.QueryItem,
                                 resolved: seq<seq<Id>>)
    requires NoDataKeys(ix)
    requires Resolves(ix, KronikoQueryItem.ItemClause(item), resolved)
    ensures Resolves(ix, KronikoQueryItem.ItemClause(KronikoQueryItem.QueryItem(item.types, [])), resolved)
    ensures item.types == [] ==> ReadResult(events, resolved) == []
  {
    var bare := KronikoQueryItem.QueryItem(item.types, []);
    DataKeysUnconstrained(ix, item, |item.properties|, resolved);
    DataKeysUnconstrained(ix, bare, 0, resolved);
    if item.types == [] {
      NothingIndexedReadsNothing(events, ix, [], resolved);
    }
  }

  /** `Query.all` has one variant, the empty clause, and reading it returns no
      events (`read` returns `[]` for an empty match). */
  lemma ReadingQueryAllReadsNothing(events: map<Id, Body>, ix: Index, resolved: seq<seq<Id>>)
    requires Resolves(ix, KronikoQuery.ToMatchVariants(KronikoQuery.All())[0], resolved)
    ensures ReadResult(events, resolved) == []
  {
    NothingIndexedReadsNothing(events, ix, [], resolved);
  }
}
