/** `Kroniko::Query`: an ordered list of query items, read as the OR of their
    clauses. */
module KronikoQuery {
  import opened Clauses
  import opened KronikoQueryItem

  /** `Query.new(items)` keeps the items exactly as given. */
  datatype Query = Query(items: seq<QueryItem>)

  /** `Query.all`: the query with no items, whose one variant is the empty clause. */
  function All(): (q: Query)
    ensures q.items == []
    ensures ToMatchVariants(q) == [[]]
  {
    Query([])
  }

  /** `items.flat_map(&:to_match_variants)`, each item giving its one clause. */
  function FlatVariants(items: seq<QueryItem>): (r: seq<Clause>)
    ensures |r| == |items|
    ensures forall i :: 0 <= i < |items| ==> r[i] == ItemClause(items[i])
  {
    if items == [] then [] else [ItemClause(items[0])] + FlatVariants(items[1..])
  }

  /** `to_match_variants`: `[{}]` for an empty query, otherwise the clauses of
      the items in item order, one per item. */
  function ToMatchVariants(q: Query): (variants: seq<Clause>)
    ensures q.items == [] ==> variants == [[]]
    ensures q.items != [] ==> |variants| == |q.items|
    ensures forall i :: 0 <= i < |q.items| ==> variants[i] == ItemClause(q.items[i])
  {
    if q.items == [] then [[]] else FlatVariants(q.items)
  }

  /** The variants of a query made of two queries' items are the variants of
      the first followed by those of the second (`flat_map` distributes over
      concatenation). */
  lemma VariantsOfConcatenation(a: Query, b: Query)
    requires a.items != [] && b.items != []
    ensures ToMatchVariants(Query(a.items + b.items)) == ToMatchVariants(a) + ToMatchVariants(b)
  {
  }
}
