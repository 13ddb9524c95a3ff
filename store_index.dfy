/** The store's on-disk state as values: event bodies by id (`events/<id>.json`)
    and, per index key, the posting lists by value name
    (`index/<key>/<value>.jsonl`). A key with an entry in `Index` is a key whose
    index directory exists; a value name with an entry is a posting file that
    exists. `index_event` only ever appends to posting files. */
module StoreIndex {
  import opened OrderedHash
  import opened Scalars

  type Id = string

  /** A stored event: a JSON object with scalar values. */
  type Body = Hash<string, Scalar>

  type Index = map<string, map<string, seq<Id>>>

  /** The posting list of `(key, name)`; a missing file reads as no ids. */
  function Postings(ix: Index, key: string, name: string): seq<Id>
  {
    if key in ix && name in ix[key] then ix[key][name] else []
  }

  /** Whether the posting file of `(key, name)` exists. */
  predicate HasList(ix: Index, key: string, name: string)
  {
    key in ix && name in ix[key]
  }

  /** `mkdir_p` of the key's directory, then `puts id` to the value's file. */
  function Post(ix: Index, key: string, name: string, id: Id): (r: Index)
    ensures key in r && name in r[key]
    ensures r[key][name] == Postings(ix, key, name) + [id]
  {
    var dir := if key in ix then ix[key] else map[];
    ix[key := dir[name := Postings(ix, key, name) + [id]]]
  }

  /** The postings `index_event` makes for the first entries of a body: one
      per pair whose key is not `"id"`, under `to_s` of its value. */
  function IndexEntries(ix: Index, body: seq<(string, Scalar)>, id: Id): Index
  {
    if |body| == 0 then ix
    else
      var prev := IndexEntries(ix, body[..|body| - 1], id);
      var (k, v) := body[|body| - 1];
      if k == "id" then prev else Post(prev, k, ToS(v), id)
  }

  /** The body has a pair `k => v` with `k != "id"` and `v.to_s == name`. */
  ghost predicate Emits(body: seq<(string, Scalar)>, key: string, name: string)
  {
    key != "id" && exists i :: 0 <= i < |body| && body[i].0 == key && ToS(body[i].1) == name
  }

  /** One posting touches one list (and its directory) and nothing else. */
  lemma PostEffect(ix: Index, key: string, name: string, id: Id, k: string, n: string)
    ensures Postings(Post(ix, key, name, id), k, n) ==
            Postings(ix, k, n) + (if k == key && n == name then [id] else [])
    ensures HasList(Post(ix, key, name, id), k, n) <==> HasList(ix, k, n) || (k == key && n == name)
    ensures k in Post(ix, key, name, id) <==> k in ix || k == key
  {
  }

  /** The pairs of a body are those of all but its last pair, plus the last;
      with distinct keys the last key is emitted by no earlier pair. */
  lemma EmitsOfLast(body: Body, init: Body, k0: string, v0: Scalar, k: string, n: string)
    requires body == init + [(k0, v0)]
    ensures Emits(body, k, n) <==> Emits(init, k, n) || (k == k0 && k != "id" && n == ToS(v0))
    ensures k == k0 ==> !Emits(init, k, n)
    ensures k in Keys(body) <==> k in Keys(init) || k == k0
  {
    var m := |init|;
    if Emits(body, k, n) {
      var i :| 0 <= i < |body| && body[i].0 == k && ToS(body[i].1) == n;
      if i < m { assert init[i] == body[i]; }
    }
    if Emits(init, k, n) {
      var i :| 0 <= i < |init| && init[i].0 == k && ToS(init[i].1) == n;
      assert body[i] == init[i];
    }
    forall i | 0 <= i < |init| ensures init[i].0 != k0 {
      assert body[i] == init[i];
      assert body[m].0 == k0;
    }
    InKeys(body, k);
    InKeys(init, k);
    if k in Keys(body) && k != k0 {
      var i :| 0 <= i < |body| && body[i].0 == k;
      assert init[i] == body[i];
    }
    if k in Keys(init) {
      var i :| 0 <= i < |init| && init[i].0 == k;
      assert body[i] == init[i];
    }
  }

  /** What indexing one body does to one posting list: the id is appended once
      to the end of the list of each `(key, value.to_s)` the body has (key not
      `"id"`); every other list is as it was. The posting file and its
      directory exist afterwards exactly when they did before or the body
      emitted to them. */
  lemma {:induction false} IndexEntriesAt(ix: Index, body: Body, id: Id, k: string, n: string)
    ensures Postings(IndexEntries(ix, body, id), k, n) ==
            Postings(ix, k, n) + (if Emits(body, k, n) then [id] else [])
    ensures HasList(IndexEntries(ix, body, id), k, n) <==> HasList(ix, k, n) || Emits(body, k, n)
    ensures k in IndexEntries(ix, body, id) <==> k in ix || (k != "id" && k in Keys(body))
  {
    if |body| > 0 {
      var m := |body| - 1;
      var init: Body := body[..m];
      assert body == init + [body[m]];
      IndexEntriesAt(ix, init, id, k, n);
      EmitsOfLast(body, init, body[m].0, body[m].1, k, n);
      if body[m].0 != "id" {
        PostEffect(IndexEntries(ix, init, id), body[m].0, ToS(body[m].1), id, k, n);
      }
    }
  }

  /** `IndexEntriesAt` for every posting list at once. */
  lemma IndexEntriesEffect(ix: Index, body: Body, id: Id)
    ensures forall k, n :: Postings(IndexEntries(ix, body, id), k, n) ==
                           Postings(ix, k, n) + (if Emits(body, k, n) then [id] else [])
    ensures forall k, n :: HasList(IndexEntries(ix, body, id), k, n) <==> HasList(ix, k, n) || Emits(body, k, n)
    ensures forall k :: k in IndexEntries(ix, body, id) <==> k in ix || (k != "id" && k in Keys(body))
  {
    forall k, n ensures Postings(IndexEntries(ix, body, id), k, n) ==
                        Postings(ix, k, n) + (if Emits(body, k, n) then [id] else [])
    {
      IndexEntriesAt(ix, body, id, k, n);
    }
    forall k, n ensures HasList(IndexEntries(ix, body, id), k, n) <==> HasList(ix, k, n) || Emits(body, k, n) {
      IndexEntriesAt(ix, body, id, k, n);
    }
    forall k ensures k in IndexEntries(ix, body, id) <==> k in ix || (k != "id" && k in Keys(body)) {
      IndexEntriesAt(ix, body, id, k, "");
    }
  }

  /** Posting lists only grow: no directory, file or entry ever disappears, and
      each old list is a prefix of the new one. */
  ghost predicate Grows(ix: Index, ix': Index)
  {
    forall k, n :: HasList(ix, k, n) ==> HasList(ix', k, n) && Postings(ix, k, n) <= Postings(ix', k, n)
  }

  /** Indexing a body makes the index grow. */
  lemma IndexEntriesGrows(ix: Index, body: Body, id: Id)
    ensures Grows(ix, IndexEntries(ix, body, id))
    ensures forall k :: k in ix ==> k in IndexEntries(ix, body, id)
  {
    IndexEntriesEffect(ix, body, id);
  }

  /** `Grows` is transitive, so postings only grow across any run of writes. */
  lemma GrowsTransitive(a: Index, b: Index, c: Index)
    requires Grows(a, b) && Grows(b, c)
    ensures Grows(a, c)
  {
    forall k, n | HasList(a, k, n) ensures HasList(c, k, n) && Postings(a, k, n) <= Postings(c, k, n) {
      assert Postings(a, k, n) <= Postings(b, k, n) <= Postings(c, k, n);
    }
  }

  /** An index key of the form `data.<attribute>`. */
  predicate IsDataKey(k: string)
  {
    |k| >= 5 && k[..5] == "data."
  }

  /** No index directory is named `data.<attribute>`. */
  predicate NoDataKeys(ix: Index)
  {
    forall k :: k in ix ==> !IsDataKey(k)
  }

  /** Events whose own keys are flat (no `data.` prefix) never create a
      `data.<attribute>` index directory. */
  lemma FlatEventsKeepNoDataKeys(ix: Index, body: Body, id: Id)
    requires NoDataKeys(ix)
    requires forall i :: 0 <= i < |body| ==> !IsDataKey(body[i].0)
    ensures NoDataKeys(IndexEntries(ix, body, id))
  {
    IndexEntriesEffect(ix, body, id);
    forall k | k in IndexEntries(ix, body, id) ensures !IsDataKey(k) {
      InKeys(body, k);
    }
  }
}
