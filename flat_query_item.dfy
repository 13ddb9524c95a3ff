/** The top-level `QueryItem` (query_item.rb): the same item as
    `Kroniko::QueryItem`, but its clause uses the property keys as they are
    (the flat keys `EventStore#index_event` writes) and puts the type
    alternation under `"type"` last, over any property of that name. */
module FlatQueryItem {
  import opened OrderedHash
  import opened Scalars
  import opened Clauses

  datatype QueryItem = QueryItem(types: seq<string>, properties: Hash<string, Scalar>)

  /** `QueryItem.new(types:, properties:)`. */
  function New(types: TypesArg, properties: Hash<Key, Scalar>): QueryItem
  {
    QueryItem(TypeNames(types), StringifyKeys(properties))
  }

  /** Construction stringifies type names and property keys, keeping order and
      values when no two property keys stringify alike. */
  lemma NewNormalises(types: TypesArg, properties: Hash<Key, Scalar>)
    requires forall i, j :: 0 <= i < j < |properties| ==> KeyToS(properties[i].0) != KeyToS(properties[j].0)
    ensures types.NilTypes? ==> New(types, properties).types == []
    ensures types.TypeList? ==> |New(types, properties).types| == |types.ts|
    ensures types.TypeList? ==> forall i :: 0 <= i < |types.ts| ==> New(types, properties).types[i] == KeyToS(types.ts[i])
    ensures types.OneType? ==> New(types, properties).types == [KeyToS(types.t)]
    ensures |New(types, properties).properties| == |properties|
    ensures forall i :: 0 <= i < |properties| ==>
              New(types, properties).properties[i] == (KeyToS(properties[i].0), properties[i].1)
  {
    StringifyKeysPreserves(properties);
  }

  /** `@properties.dup`, its values read as plain-value conditions. */
  function AsConditions(props: Hash<string, Scalar>): (r: Clause)
    ensures |r| == |props|
    ensures forall i :: 0 <= i < |r| ==> r[i] == (props[i].0, Equals(props[i].1))
  {
    seq(|props|, i requires 0 <= i < |props| => (props[i].0, Equals(props[i].1)))
  }

  /** `to_match_variants`: one clause, the properties with `"type"` set to the
      alternation of the types when there are any. With no types the clause is
      the properties; with types, `"type"` matches a name iff it equals a listed
      type ignoring case, it replaces a property named `"type"`, and every other
      property is unchanged. The item itself is a value and stays as it was. */
  function ToMatchVariants(item: QueryItem): (variants: seq<Clause>)
    ensures |variants| == 1
    ensures item.types == [] ==> variants[0] == AsConditions(item.properties)
    ensures item.types != [] ==>
              && Get(variants[0], "type") == Some(TypeIn(set t | t in item.types))
              && Keys(variants[0]) == Keys(item.properties) + {"type"}
    ensures item.types != [] && "type" !in Keys(item.properties) ==>
              variants[0] == AsConditions(item.properties) + [("type", TypeIn(set t | t in item.types))]
    ensures item.types != [] && "type" in Keys(item.properties) ==>
              |variants[0]| == |item.properties| &&
              forall i :: 0 <= i < |item.properties| ==> variants[0][i].0 == item.properties[i].0
    ensures forall k :: k != "type" ==>
              Get(variants[0], k) == match Get(item.properties, k)
                                     case None => None
                                     case Some(v) => Some(Equals(v))
  {
    var base := AsConditions(item.properties);
    AsConditionsKeys(item.properties);
    if item.types == [] then [base]
    else [Put(base, "type", TypeIn(set t | t in item.types))]
  }

  /** The condition clause has the keys of the properties, each with its value
      as a plain-value condition. */
  lemma {:induction false} AsConditionsKeys(props: Hash<string, Scalar>)
    ensures Keys(AsConditions(props)) == Keys(props)
    ensures forall k :: Get(AsConditions(props), k) == match Get(props, k)
                                                     case None => None
                                                     case Some(v) => Some(Equals(v))
  {
    if |props| > 0 {
      var t: Hash<string, Scalar> := props[1..];
      AsConditionsKeys(t);
      assert AsConditions(props)[1..] == AsConditions(t);
    }
  }
}
