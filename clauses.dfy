/** Match clauses: the hashes that `to_match_variants` produces and that
    `EventStore#read` consumes. A clause maps an index key to a condition:
    either a plain value (looked up by its `to_s`) or the anchored,
    case-insensitive type alternation `^(t1|t2|...)$` that query items build,
    written here as the set of its alternatives. */
module Clauses {
  import opened OrderedHash
  import opened Scalars

  datatype Cond = Equals(v: Scalar) | TypeIn(names: set<string>)

  type Clause = Hash<string, Cond>

  /** ASCII case folding, as the `IGNORECASE` flag applies it to ASCII letters. */
  function Lower(c: char): (d: char)
    ensures 'A' <= c <= 'Z' ==> d as int == c as int + 32
    ensures !('A' <= c <= 'Z') ==> d == c
  {
    if 'A' <= c <= 'Z' then (c as int + 32) as char else c
  }

  function FoldCase(s: string): (r: string)
    ensures |r| == |s|
    ensures forall i :: 0 <= i < |s| ==> r[i] == Lower(s[i])
  {
    seq(|s|, i requires 0 <= i < |s| => Lower(s[i]))
  }

  /** Folding leaves no ASCII capital behind and is idempotent, so names that
      fold alike are exactly the spellings of one name up to case. */
  lemma FoldCaseNormalises(s: string)
    ensures forall i :: 0 <= i < |FoldCase(s)| ==> !('A' <= FoldCase(s)[i] <= 'Z')
    ensures FoldCase(FoldCase(s)) == FoldCase(s)
  {
  }

  /** `name.match?(/^(t1|...|tn)$/i)`: the whole name equals one alternative,
      ignoring the case of ASCII letters. */
  predicate Matches(types: set<string>, name: string)
  {
    exists t :: t in types && FoldCase(t) == FoldCase(name)
  }

  /** Every listed type matches itself, whatever the case it is written in. */
  lemma MatchesIgnoringCase(types: set<string>, t: string, name: string)
    requires t in types
    requires FoldCase(name) == FoldCase(t)
    ensures Matches(types, name)
  {
  }

  /** The pattern is anchored at both ends: a matching name has the length of
      some listed type, so a prefix or extension of a listed type matches only
      if it is itself a listed type, ignoring case. */
  lemma MatchIsAnchored(types: set<string>, name: string)
    requires Matches(types, name)
    ensures exists t :: t in types && |t| == |name|
  {
    var t :| t in types && FoldCase(t) == FoldCase(name);
    assert |FoldCase(t)| == |FoldCase(name)|;
  }

  /** The two examples of anchoring and case folding that matter for the cart
      queries: a lower-case spelling matches, a longer name does not. */
  lemma CartTypeExamples()
    ensures Matches({"ItemAdded", "ItemRemoved"}, "itemadded")
    ensures !Matches({"ItemAdded", "ItemRemoved"}, "ItemAddedTwice")
    ensures !Matches({"ItemAdded"}, "Item")
  {
    assert FoldCase("ItemAdded") == FoldCase("itemadded");
    if Matches({"ItemAdded", "ItemRemoved"}, "ItemAddedTwice") {
      MatchIsAnchored({"ItemAdded", "ItemRemoved"}, "ItemAddedTwice");
    }
    if Matches({"ItemAdded"}, "Item") {
      MatchIsAnchored({"ItemAdded"}, "Item");
    }
  }

  /** `properties.transform_keys(&:to_s)`: each pair is re-inserted under its
      stringified key, in order; a later key with the same string overwrites the
      value of an earlier one, which keeps its place. */
  function StringifyKeys(props: Hash<Key, Scalar>): Hash<string, Scalar>
    decreases |props|
  {
    if |props| == 0 then []
    else
      var init: Hash<Key, Scalar> := props[..|props| - 1];
      Put(StringifyKeys(init), KeyToS(props[|props| - 1].0), props[|props| - 1].1)
  }

  /** The stringified hash has exactly the stringified keys. */
  lemma {:induction false} StringifyKeysKeys(props: Hash<Key, Scalar>)
    ensures forall s :: s in Keys(StringifyKeys(props)) <==> exists i :: 0 <= i < |props| && KeyToS(props[i].0) == s
  {
    if |props| > 0 {
      var init: Hash<Key, Scalar> := props[..|props| - 1];
      StringifyKeysKeys(init);
    }
  }

  /** When no two keys stringify alike (the usual case: all symbols or all
      strings), `transform_keys(&:to_s)` keeps every value and the order. */
  lemma {:induction false} StringifyKeysPreserves(props: Hash<Key, Scalar>)
    requires forall i, j :: 0 <= i < j < |props| ==> KeyToS(props[i].0) != KeyToS(props[j].0)
    ensures |StringifyKeys(props)| == |props|
    ensures forall i :: 0 <= i < |props| ==> StringifyKeys(props)[i] == (KeyToS(props[i].0), props[i].1)
  {
    if |props| > 0 {
      var n := |props| - 1;
      var init: Hash<Key, Scalar> := props[..n];
      StringifyKeysPreserves(init);
      StringifyKeysKeys(init);
      var prev := StringifyKeys(init);
      assert KeyToS(props[n].0) !in Keys(prev);
      assert StringifyKeys(props) == prev + [(KeyToS(props[n].0), props[n].1)];
      forall i | 0 <= i < n ensures StringifyKeys(props)[i] == (KeyToS(props[i].0), props[i].1) {
        assert props[i] == init[i];
      }
    }
  }
}
