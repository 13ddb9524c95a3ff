# Kroniko event store — a Dafny model

Kroniko is a small Ruby event store. `EventStore` writes each event as a JSON
body named by a fresh id, and indexes it. For every key except `"id"` it
appends the id to the posting file `index/<key>/<value.to_s>.jsonl`. It then
hands the event to its subscribers: synchronous ones are called at once, and
asynchronous ones are queued for a background worker. `read(match:)` turns a
match hash into one id list per indexed key and intersects those lists with
Ruby's `&`. A plain value selects one posting file. A case-insensitive,
anchored type pattern selects the union of the posting files it matches. The
query side (`Kroniko::Query`, `Kroniko::QueryItem`, the top-level `QueryItem`)
expands a query into such match hashes ("variants"). `Kroniko::Event` and
`Kroniko::SequencedEvent` are the event records and their `to_h` shapes.

The model replaces the two directories by maps. `events` maps an id to its
body. `index` maps a key to its posting lists, by value name. A key with an
entry is a directory that exists, and a value name with an entry is a posting
file that exists. Ruby hashes keep insertion order, so they are sequences of
pairs with distinct keys (`OrderedHash`). `Put` is `h[k] = v`.

The files:

- `ordered_hash.dfy`: insertion-ordered hashes.
- `scalars.dfy`: JSON scalars and their `to_s`, symbol-or-string keys, and `Array(types)`.
- `clauses.dfy`: match conditions, the anchored case-insensitive type pattern, and `transform_keys(&:to_s)`.
- `kroniko_query_item.dfy`, `flat_query_item.dfy`, `kroniko_query.dfy`: the query side.
- `kroniko_event.dfy`: the event records, plus the field-only `AppendCondition` and `ReadOptions`.
- `store_index.dfy`: posting lists and what indexing one body does to them.
- `read_spec.dfy`: what `read` computes, and its soundness, completeness and order.
- `event_store.dfy`: the `EventStore` class.
- `store_queries.dfy`: how queries and written events meet.

The model leaves open the order in which `Dir.glob` lists the posting files
of a type pattern (unsorted before Ruby 3.0, sorted by name since). For that
reason `Read` returns,
as a ghost out-parameter, the id lists it resolved (`matched_id_sets`). They
are tied to the index by `ReadSpec.Resolves`. The list of a type pattern is
pinned down by its set of ids, which has no duplicates. The list of a plain
value is pinned down exactly.

`Query.all` yields the single empty clause `{}`, and `read(match: {})`
returns `[]` (event_store.rb:33). So reading `Query.all` returns no events
(`StoreQueries.ReadingQueryAllReadsNothing`).

## Model

| member | source | states |
|---|---|---|
| OrderedHash.Put | event_store.rb:22 | `h[k] = v`: the keys become the old keys plus `k`, `k` maps to `v`, every other key keeps its value and place, and a new key is appended last |
| OrderedHash.Get | event_store.rb:82 | `Get` is `None` exactly when `k` is not a key (a key stored with nil gives `Some(Null)`) |
| OrderedHash.GetAt | event_store.rb:77 | in a hash with distinct keys, looking up the key of any pair gives that pair's value |
| Scalars.NatToS | event_store.rb:80 | `Integer#to_s` of a natural number is a non-empty string of decimal digits |
| Scalars.IntAndStringShareName | event_store.rb:48 | the integer 42 and the string "42" name the same posting file, and a negative integer prints with a minus sign |
| Clauses.MatchesIgnoringCase | lib/kroniko/query_item.rb:14 | every listed type matches any spelling of itself that differs only in case |
| Clauses.FoldCaseNormalises | lib/kroniko/query_item.rb:14 | case folding leaves no ASCII capital and is idempotent |
| Clauses.MatchIsAnchored | lib/kroniko/query_item.rb:14 | a matching name has the length of some listed type, so a prefix or extension of a listed type matches only if it is itself a listed type, ignoring case (for names without a newline) |
| Clauses.CartTypeExamples | lib/kroniko/query_item.rb:14 | "itemadded" matches `ItemAdded`; "ItemAddedTwice" and "Item" do not |
| Clauses.StringifyKeysKeys | lib/kroniko/query_item.rb:7 | `transform_keys(&:to_s)` has exactly the stringified keys |
| Clauses.StringifyKeysPreserves | lib/kroniko/query_item.rb:7 | when no two keys stringify alike, every value is kept, in order, under its string key |
| KronikoQueryItem.NewNormalises | lib/kroniko/query_item.rb:5-8 | construction stringifies the types and the property keys, keeping order and values when no two property keys stringify alike |
| KronikoQueryItem.DataKeySeparates | lib/kroniko/query_item.rb:15-19 | distinct properties land under distinct `"data.k"` keys and none under `"type"`, so no assignment overwrites another |
| KronikoQueryItem.ToMatchVariants | lib/kroniko/query_item.rb:10-23 | the loop that fills `base` yields exactly one clause: the `"type"` pair first, then one data pair per property, in order |
| KronikoQueryItem.ItemClauseMeaning | lib/kroniko/query_item.rb:11-22 | the clause has `"type"` exactly when types are given, and it matches a name iff the name equals a listed type ignoring case; each property `k => v` appears as `"data.k" => v`; there are no other keys |
| FlatQueryItem.NewNormalises | query_item.rb:4-7 | construction stringifies the types and the property keys, keeping order and values when no two property keys stringify alike |
| FlatQueryItem.AsConditionsKeys | query_item.rb:10 | the copy has the properties' keys, and each maps to its property's value |
| FlatQueryItem.ToMatchVariants | query_item.rb:9-18 | exactly one clause; with no types it is the properties; with types, `"type"` maps to the alternation, replaces a property of that name in its place or else is appended last, and every other property is unchanged |
| KronikoQuery.All | lib/kroniko/query.rb:9-11 | `Query.all` has no items, and its variants are exactly `[{}]` |
| KronikoQuery.FlatVariants | lib/kroniko/query.rb:15 | `flat_map` gives one clause per item, the i-th being the i-th item's clause |
| KronikoQuery.ToMatchVariants | lib/kroniko/query.rb:13-16 | an empty query gives `[{}]`; otherwise one variant per item, in item order |
| KronikoQuery.VariantsOfConcatenation | lib/kroniko/query.rb:15 | the variants of two non-empty queries' items together are the first query's variants followed by the second's |
| KronikoEvent.NewEvent | lib/kroniko/event.rb:5-8 | `data` is kept; a nil or false type becomes the class name; any other type is kept; the type is never nil |
| KronikoEvent.ToH | lib/kroniko/event.rb:10-12 | `to_h` has exactly the keys `"type"` and `"data"`, with the fields' values, `"type"` first |
| KronikoEvent.NewSequencedEvent | lib/kroniko/sequenced_event.rb:7-10 | type and data are handled exactly as by `Event.new` on the subclass, and the position is kept |
| KronikoEvent.SequencedToHShape | lib/kroniko/sequenced_event.rb:12-14 | `to_h` is the event's `to_h` with `"position"` appended: exactly the keys `"type"`, `"data"`, `"position"`, with the fields' values |
| KronikoEvent.TypeDefaultExamples | lib/kroniko/event.rb:7 | a nil type becomes `Kroniko::Event` (or `Kroniko::SequencedEvent`), and an explicit type survives |
| StoreIndex.Post | event_store.rb:80-82 | after `mkdir_p` and the append, the posting file exists and is the old list plus the id |
| StoreIndex.PostEffect | event_store.rb:80-82 | one append touches one posting file and its directory, and nothing else |
| StoreIndex.EmitsOfLast | event_store.rb:77-78 | with distinct keys, the last pair of a body is the only one that posts under its key |
| StoreIndex.IndexEntriesAt | event_store.rb:76-84 | indexing a body appends the id once to the end of the file of each `(key, value.to_s)` with key not `"id"`; every other file is unchanged; a file or directory exists afterwards iff it did before or the body posted to it |
| StoreIndex.IndexEntriesEffect | event_store.rb:76-84 | the same for every posting file at once |
| StoreIndex.IndexEntriesGrows | event_store.rb:76-84 | postings only grow: no directory, file or entry disappears, and each old list is a prefix of the new one |
| StoreIndex.GrowsTransitive | event_store.rb:82 | growth composes, so postings only grow across any run of writes |
| StoreIndex.FlatEventsKeepNoDataKeys | event_store.rb:80 | events with flat keys never create a `data.<attribute>` index directory |
| ReadSpec.Uniq | event_store.rb:52 | `uniq` has no duplicates, the same elements, and leaves a duplicate-free list unchanged |
| ReadSpec.KeepAll | event_store.rb:58 | keeps exactly the ids of the list that occur in all the other lists, in order |
| ReadSpec.KeepAllNothing | event_store.rb:58 | filtering against no lists keeps the whole list |
| ReadSpec.InAllAppend | event_store.rb:58 | an id is in all lists plus one more iff it is in all of them and in that one |
| ReadSpec.KeepAllTwice | event_store.rb:58 | filtering by `&` one list at a time equals filtering against all of them at once |
| ReadSpec.ReduceIsFilterOfFirst | event_store.rb:58 | `reduce(&:&)` keeps the ids of the first list that are in all the others, in the first list's order |
| ReadSpec.Bodies | event_store.rb:60-63 | `map`/`compact` gives the stored body of each id that has one, in order |
| ReadSpec.Live | event_store.rb:60-63 | the ids with a body, in order; duplicate-free if the ids were; never more than the ids |
| ReadSpec.HiddenFilesSkipped | event_store.rb:43-49 | a type pattern never finds ids filed only under a hidden posting file (a nil or empty value, or a name starting with a dot), while a plain nil value does |
| ReadSpec.ResolvesMeaning | event_store.rb:37-54 | there is a resolved list iff some key is indexed; each list is duplicate-free; an id is in all lists iff it satisfies every indexed key |
| ReadSpec.ReadMeaning | event_store.rb:33-63 | `read` returns exactly the bodies of the ids that have a body and satisfy every indexed key, given that some key is indexed; no id twice; never more events than matched ids |
| ReadSpec.ReadOrder | event_store.rb:56-63 | when every list is non-empty, the result is in the order of the first resolved list |
| ReadSpec.FirstResolved | event_store.rb:37-53 | the first resolved list belongs to the first key of the clause that has an index directory |
| ReadSpec.ReadOrderPlainFirst | event_store.rb:47-58 | with a plain value under the first indexed key, the result follows that key's posting file |
| ReadSpec.UnindexedKeyIgnored | event_store.rb:39 | a key with no index directory imposes no constraint |
| ReadSpec.NothingIndexedReadsNothing | event_store.rb:33-56 | a clause with no indexed key, the empty clause included, reads nothing |
| EventStoreModel.InlineExactlyOnce | event_store.rb:66-67 | dispatch calls each `subscribe`d block once per registration, with the event |
| EventStoreModel.DeferredExactlyOnce | event_store.rb:70-71 | dispatch queues each `subscribe_async`ed block once per registration, with the event |
| EventStoreModel.DispatchCoversAll | event_store.rb:86-88 | one call or queue entry per subscriber, each carrying the event |
| EventStoreModel.EventStore.constructor | event_store.rb:7-18 | a store over existing events and postings, with no subscribers and an empty queue |
| EventStoreModel.EventStore.Write | event_store.rb:20-30 | the returned event is the input merged with `"id"` (a caller's `"id"` overwritten in its place, otherwise appended last, everything else kept); it is stored under that id; it is indexed; postings only grow; subscribers are dispatched to in registration order |
| EventStoreModel.EventStore.IndexEvent | event_store.rb:76-84 | the loop over the pairs makes exactly the postings `IndexEntries` describes |
| EventStoreModel.EventStore.Dispatch | event_store.rb:86-88 | synchronous blocks are called and asynchronous ones queued at the back, in registration order |
| EventStoreModel.EventStore.Subscribe | event_store.rb:66-68 | appends a synchronous subscriber |
| EventStoreModel.EventStore.SubscribeAsync | event_store.rb:70-72 | appends the enqueueing wrapper |
| EventStoreModel.EventStore.ServeAsync | event_store.rb:90-97 | one worker step pops the oldest queued pair and calls it; on an empty queue nothing changes |
| EventStoreModel.EventStore.ResolvePattern | event_store.rb:41-52 | a type pattern resolves to the duplicate-free ids of every posting file `Dir.glob` lists (not hidden) whose name matches |
| EventStoreModel.EventStore.Read | event_store.rb:32-64 | the resolved lists satisfy `Resolves`, the result is `ReadResult` of them, and an empty match returns `[]` |
| StoreQueries.GetSome | event_store.rb:80 | a value a body holds under a key comes from one of its pairs |
| StoreQueries.WrittenEventIsFound | event_store.rb:20-63 | once written, an event is returned by every non-empty match of plain values it holds |
| StoreQueries.FlatItemFindsWrittenEvent | query_item.rb:9-18 | a top-level item with no types finds a written event that holds all its properties |
| StoreQueries.DataKeysUnconstrained | event_store.rb:39 | against an index without `data.` directories, the `"data.k"` keys of a `Kroniko::QueryItem` clause are all skipped |
| StoreQueries.LibItemIgnoresProperties | lib/kroniko/query_item.rb:18-20 | against such an index, a `Kroniko::QueryItem` reads what its types alone read, and without types it reads nothing |
| StoreQueries.ReadingQueryAllReadsNothing | lib/kroniko/query.rb:14 | reading the one variant of `Query.all` returns no events |

## Left out

- Filesystem I/O, JSON serialisation and `mkdir_p`: the event and index directories are the maps `events` and `index`. A body is stored as a value and is read back equal, so the JSON round trip is not modelled. Symbol keys in a written event, which JSON would turn into strings, are not modelled: bodies have string keys.
- Nested JSON values, arrays and floats in event bodies: bodies and query properties hold scalars (nil, booleans, integers, strings). `Kroniko::Event` keeps its own untyped `Value`.
- A value whose `to_s` contains `/` or is not a valid file name: file names are the `to_s` strings themselves. Posting files whose name is empty or starts with a dot are hidden from `Dir.glob`; the model does follow that (`ReadSpec.Globbed`).
- Index keys that are not plain directory names: the keys `""` and `"."` name the index directory itself, `".."` its parent, and a key `"a/b"` creates `index/a`. Such directories exist without an entry in `index`, so the source resolves the key to `[]` and `read` returns `[]`, where the model skips the key. Glob metacharacters in a key are not modelled either.
- Id generation from `Time.now` and `SecureRandom.uuid`: the fresh id is a parameter of `Write`, with the requirement that it is not already used.
- The order in which `Dir.glob` lists the posting files of a type pattern (unsorted before Ruby 3.0, sorted by name since): the resolved list of a pattern is constrained only as a duplicate-free list with the right ids, and no order is stated across files.
- Handlers that raise: handler blocks are opaque and assumed to return normally. In the source a `subscribe`d block that raises stops `dispatch` there (later subscribers are not called) and makes `write` raise after the body has been stored and indexed; an asynchronous block that raises ends the worker thread, so the queue is never served again. `Write`, `Dispatch` and `ServeAsync` state the behaviour when every handler returns.
- The background thread of `start_async_dispatcher`: it is concurrency. `ServeAsync` is one step of it on the FIFO queue. Handler blocks are opaque numbers, and their side effects are not modelled. `calls` records which block was invoked with which event.
- General Regexp semantics: a type pattern is the set of its alternatives, matched whole-name with ASCII case folding. Type names are joined into the pattern unescaped, so names with regex metacharacters are assumed not to occur. Unicode case folding is not modelled. Ruby's `^` and `$` anchor at line boundaries, so a value name containing a newline can match with one of its lines; the model matches whole names only, and `Clauses.MatchIsAnchored` holds for the source only on names without a newline. Match values that are arbitrary `Regexp` objects are not modelled either: only the pattern the query items build.
- `AppendCondition` and `Kroniko::ReadOptions` are records with no behaviour in the code, and `Kroniko::SequencedEvent` only carries a position. `event_store.rb` keeps no position log, checks no append condition, has no lock manager, and its `read` takes only `match:`.
- The top-level `sequenced_event.rb` duplicates `lib/kroniko/sequenced_event.rb`, and its superclass file is not part of this model.
- `app.rb`, the HTTP layer with its JSON parsing, status codes and floating-point cart totals.
- `Query.new(items)` stores the items as given: this is the `Query` datatype's constructor, so it has no member of its own.
- Scalars.NatToS: only its digit shape is stated; that distinct integers print differently is not proved.
