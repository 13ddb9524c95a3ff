/** `Kroniko::QueryItem`: one OR-branch of a query, a list of event types and
    a hash of payload properties. It becomes exactly one match clause whose
    keys are `"type"` (when types are given) and `"data.<property>"`. */
module KronikoQueryItem {
  import opened OrderedHash
  import opened Scalars
  import opened Clauses

  datatype QueryItem = QueryItem(types: seq<string>, properties: Hash<string, Scalar>)

  /** `QueryItem.new(types:, properties:)`: type names and property keys are
      stringified. */
  function New(types: TypesArg, properties: Hash<Key, Scalar>): QueryItem
  {
    QueryItem(TypeNames(types), StringifyKeys(properties))
  }

  /** Construction keeps the type names in order and, when no two property keys
      stringify alike, every property value in order under its string key. */
  lemma NewNormalises(types: TypesArg, properties: Hash<Key, Scalar>)
    requires forall i, j :: 0 <= i < j < |properties| ==> KeyToS(properties[i].0) != KeyToS(properties[j].0)
    ensures types.NilTypes? ==> New(types, properties).types == []
    ensures types.OneType? ==> New(types, properties).types == [KeyToS(types.t)]
    ensures types.TypeList? ==> |New(types, properties).types| == |types.ts|
    ensures types.TypeList? ==> forall i :: 0 <= i < |types.ts| ==> New(types, properties).types[i] == KeyToS(types.ts[i])
    ensures |New(types, properties).properties| == |properties|
    ensures forall i :: 0 <= i < |properties| ==>
              New(types, properties).properties[i] == (KeyToS(properties[i].0), properties[i].1)
  {
    StringifyKeysPreserves(properties);
  }

  /** The index key a property is matched under. */
  function DataKey(k: string): (r: string)
    ensures |r| == |k| + 5 && r[..5] == "data." && r[5..] == k
  {
    "data." + k
  }

  /** Distinct properties land under distinct keys, and none of them under
      `"type"`, so no property overwrites the type pattern or another
      property. */
  lemma DataKeySeparates(a: string, b: string)
    ensures DataKey(a) == DataKey(b) ==> a == b
    ensures DataKey(a) != "type"
  {
    assert DataKey(a)[5..] == a && DataKey(b)[5..] == b;
  }

  /** The set of alternatives of `^(t1|...|tn)$`. */
  function TypeSet(types: seq<string>): (r: set<string>)
    ensures forall t :: t in r <==> t in types
  {
    set t | t in types
  }

  /** The leading `"type"` pair, present only when types were given. */
  function TypePart(types: seq<string>): (r: Clause)
    ensures |r| <= 1
    ensures |r| == 1 <==> types != []
  {
    if types == [] then [] else [("type", TypeIn(TypeSet(types)))]
  }

  /** The `"data.<k>" => v` pairs for the first `n` properties, in order. */
  function DataPart(props: Hash<string, Scalar>, n: nat): (r: Clause)
    requires n <= |props|
    ensures |r| == n
    ensures forall i :: 0 <= i < n ==> r[i] == (DataKey(props[i].0), Equals(props[i].1))
  {
    var r := seq(n, i requires 0 <= i < n => (DataKey(props[i].0), Equals(props[i].1)));
    assert DistinctKeys(r) by {
      forall i, j | 0 <= i < j < n ensures r[i].0 != r[j].0 {
        assert r[i].0[5..] == props[i].0;
        assert r[j].0[5..] == props[j].0;
      }
    }
    r
  }

  /** The clause after the `"type"` assignment and the first `n` property
      assignments of `to_match_variants`. */
  function ClausePrefix(item: QueryItem, n: nat): (r: Clause)
    requires n <= |item.properties|
  {
    var t := TypePart(item.types);
    var d := DataPart(item.properties, n);
    var r := t + d;
    assert DistinctKeys(r) by {
      forall i, j | 0 <= i < j < |r| ensures r[i].0 != r[j].0 {
        if i < |t| {
          assert r[i].0 == "type";
          assert r[j].0[..5] == "data.";
        }
      }
    }
    r
  }

  /** The one clause `to_match_variants` builds. */
  function ItemClause(item: QueryItem): Clause
  {
    ClausePrefix(item, |item.properties|)
  }

  /** `to_match_variants`: starting from an empty hash, set `"type"` when types
      were given, then set `"data.<k>"` for each property in turn. */
  method ToMatchVariants(item: QueryItem) returns (variants: seq<Clause>)
    ensures variants == [ItemClause(item)]
  {
    var base: Clause := [];
    if item.types != [] {
      base := Put(base, "type", TypeIn(TypeSet(item.types)));
    }
    for i := 0 to |item.properties|
      invariant base == ClausePrefix(item, i)
    {
      var (k, v) := item.properties[i];
      assert DataKey(k) !in Keys(base) by {
        InKeys(base, DataKey(k));
      }
      base := Put(base, "data." + k, Equals(v));
    }
    variants := [base];
  }

  /** What the clause of an item says: `"type"` is present exactly when types
      were given and then matches a name iff the name equals one of them
      ignoring case; every property `k => v` appears as `"data.k" => v`; and
      there is no other key. */
  lemma {:induction false} ItemClauseMeaning(item: QueryItem)
    ensures "type" in Keys(ItemClause(item)) <==> item.types != []
    ensures item.types != [] ==> Get(ItemClause(item), "type") == Some(TypeIn(TypeSet(item.types)))
    ensures forall name :: item.types != [] ==>
              (Matches(TypeSet(item.types), name) <==> exists t :: t in item.types && FoldCase(t) == FoldCase(name))
    ensures forall i :: 0 <= i < |item.properties| ==>
              Get(ItemClause(item), DataKey(item.properties[i].0)) == Some(Equals(item.properties[i].1))
    ensures forall k :: k in Keys(ItemClause(item)) ==>
              k == "type" || exists i :: 0 <= i < |item.properties| && k == DataKey(item.properties[i].0)
  {
    TypeKeyOfClause(item);
    DataKeysOfClause(item);
  }

  /** The `"type"` pair of the clause, when types were given, is its first. */
  lemma TypeKeyOfClause(item: QueryItem)
    ensures "type" in Keys(ItemClause(item)) <==> item.types != []
    ensures item.types != [] ==> Get(ItemClause(item), "type") == Some(TypeIn(TypeSet(item.types)))
  {
    var c := ItemClause(item);
    if item.types != [] {
      GetAt(c, 0);
    } else {
      InKeys(c, "type");
    }
  }

  /** Each property sits under its data key, and nothing else is in the clause. */
  lemma DataKeysOfClause(item: QueryItem)
    ensures forall i :: 0 <= i < |item.properties| ==>
              Get(ItemClause(item), DataKey(item.properties[i].0)) == Some(Equals(item.properties[i].1))
    ensures forall k :: k in Keys(ItemClause(item)) ==>
              k == "type" || exists i :: 0 <= i < |item.properties| && k == DataKey(item.properties[i].0)
  {
    var c := ItemClause(item);
    var t := TypePart(item.types);
    forall i | 0 <= i < |item.properties|
      ensures Get(c, DataKey(item.properties[i].0)) == Some(Equals(item.properties[i].1))
    {
      GetAt(c, |t| + i);
    }
    forall k | k in Keys(c)
      ensures k == "type" || exists i :: 0 <= i < |item.properties| && k == DataKey(item.properties[i].0)
    {
      InKeys(c, k);
      var j :| 0 <= j < |c| && c[j].0 == k;
      if j >= |t| {
        assert k == DataKey(item.properties[j - |t|].0);
      }
    }
  }
}
