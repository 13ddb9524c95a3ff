/** What `EventStore#read(match:)` computes, as functions of the store's
    state. Each key of the match clause that has an index directory resolves
    to a duplicate-free id list (one posting list for a plain value; the union
    of the posting lists whose value name matches, for a type alternation);
    keys without a directory are skipped; the lists are folded with Ruby's
    `Array#&`; ids without a body are dropped. The model leaves open the
    order in which `Dir.glob` lists the posting files of an alternation
    (unsorted before Ruby 3.0, sorted by name since), so a resolved list is
    pinned down by `ResolvedAs` only up to that order. */
module ReadSpec {
  import opened OrderedHash
  import opened Scalars
  import opened Clauses
  import opened StoreIndex

  predicate NoDup(s: seq<Id>)
  {
    forall i, j :: 0 <= i < j < |s| ==> s[i] != s[j]
  }

  /** Ruby's `Array#uniq`: the first occurrence of each id, in order. */
  function Uniq(s: seq<Id>): (r: seq<Id>)
    ensures NoDup(r)
    ensures forall x :: x in r <==> x in s
    ensures NoDup(s) ==> r == s
  {
    if |s| == 0 then []
    else
      var p := Uniq(s[..|s| - 1]);
      var x := s[|s| - 1];
      assert forall y :: y in s <==> y in s[..|s| - 1] || y == x;
      if x in p then p else p + [x]
  }

  /** The id occurs in every list. */
  predicate InAll(x: Id, lists: seq<seq<Id>>)
  {
    forall j :: 0 <= j < |lists| ==> x in lists[j]
  }

  /** The ids of `s` that occur in every list of `others`, in the order of `s`. */
  function KeepAll(s: seq<Id>, others: seq<seq<Id>>): (r: seq<Id>)
    ensures forall x :: x in r <==> x in s && InAll(x, others)
    ensures NoDup(s) ==> NoDup(r)
    ensures |r| <= |s|
  {
    if s == [] then []
    else
      var t := KeepAll(s[1..], others);
      assert NoDup(s) ==> s[0] !in s[1..];
      (if InAll(s[0], others) then [s[0]] else []) + t
  }

  /** Ruby's `a & b`: the ids of `a` that are in `b`, in `a`'s order, without
      duplicates. */
  function Intersect(a: seq<Id>, b: seq<Id>): seq<Id>
  {
    Uniq(KeepAll(a, [b]))
  }

  /** `lists.reduce(&:&)`: a left fold of `&`; one list is returned as is. */
  function Reduce(lists: seq<seq<Id>>): seq<Id>
    requires |lists| > 0
  {
    if |lists| == 1 then lists[0] else Intersect(Reduce(lists[..|lists| - 1]), lists[|lists| - 1])
  }

  /** Filtering against no lists keeps everything. */
  lemma {:induction false} KeepAllNothing(s: seq<Id>)
    ensures KeepAll(s, []) == s
  {
    if s != [] {
      KeepAllNothing(s[1..]);
    }
  }

  lemma InAllAppend(x: Id, others: seq<seq<Id>>, b: seq<Id>)
    ensures InAll(x, others + [b]) <==> InAll(x, others) && x in b
  {
    assert (others + [b])[|others|] == b;
    assert forall j :: 0 <= j < |others| ==> (others + [b])[j] == others[j];
  }

  /** Filtering twice is filtering once against all the lists. */
  lemma {:induction false} KeepAllTwice(s: seq<Id>, others: seq<seq<Id>>, b: seq<Id>)
    ensures KeepAll(KeepAll(s, others), [b]) == KeepAll(s, others + [b])
  {
    if s != [] {
      var x := s[0];
      KeepAllTwice(s[1..], others, b);
      InAllAppend(x, others, b);
      assert KeepAll(s, others + [b]) ==
             (if InAll(x, others + [b]) then [x] else []) + KeepAll(s[1..], others + [b]);
      var t := KeepAll(s, others);
      if InAll(x, others) {
        assert t == [x] + KeepAll(s[1..], others);
        assert t[0] == x && t[1..] == KeepAll(s[1..], others);
        assert InAll(x, [b]) <==> x in b;
        assert KeepAll(t, [b]) == (if InAll(x, [b]) then [x] else []) + KeepAll(t[1..], [b]);
      } else {
        assert t == KeepAll(s[1..], others);
      }
    }
  }

  /** When the first list has no duplicates (a resolved list never has),
      `reduce(&:&)` keeps exactly the ids of the first list that are in all
      the others, in the first list's order. */
  lemma {:induction false} ReduceIsFilterOfFirst(lists: seq<seq<Id>>)
    requires |lists| > 0 && NoDup(lists[0])
    ensures Reduce(lists) == KeepAll(lists[0], lists[1..])
  {
    if |lists| == 1 {
      KeepAllNothing(lists[0]);
      assert lists[1..] == [];
    } else {
      var init := lists[..|lists| - 1];
      ReduceIsFilterOfFirst(init);
      KeepAllTwice(lists[0], init[1..], lists[|lists| - 1]);
      assert init[1..] + [lists[|lists| - 1]] == lists[1..];
    }
  }

  /** `map { |id| body or nil }.compact`: the body of each id that has one, in
      order. */
  function Bodies(events: map<Id, Body>, ids: seq<Id>): (r: seq<Body>)
    ensures |r| == |Live(events, ids)|
    ensures forall j :: 0 <= j < |r| ==> Live(events, ids)[j] in events && r[j] == events[Live(events, ids)[j]]
  {
    if ids == [] then []
    else (if ids[0] in events then [events[ids[0]]] else []) + Bodies(events, ids[1..])
  }

  /** The ids that have a body, in order. */
  function Live(events: map<Id, Body>, ids: seq<Id>): (r: seq<Id>)
    ensures forall x :: x in r <==> x in ids && x in events
    ensures NoDup(ids) ==> NoDup(r)
    ensures |r| <= |ids|
  {
    if ids == [] then []
    else
      var t := Live(events, ids[1..]);
      assert NoDup(ids) ==> ids[0] !in ids[1..];
      (if ids[0] in events then [ids[0]] else []) + t
  }

  /** Whether `Dir.glob('*.jsonl')` lists the posting file of value name `n`:
      the file `n.jsonl` is hidden, and so skipped, when `n` is empty or starts
      with a dot. */
  predicate Globbed(n: string)
  {
    n != "" && n[0] != '.'
  }

  /** The id is found by the condition in the posting lists of one key: in the
      list named `v.to_s` for a plain value; in some listed file whose name
      matches the alternation for a type pattern. */
  ghost predicate Satisfies(postings: map<string, seq<Id>>, c: Cond, id: Id)
  {
    match c
    case Equals(v) => ToS(v) in postings && id in postings[ToS(v)]
    case TypeIn(names) => exists n :: n in postings && Globbed(n) && Matches(names, n) && id in postings[n]
  }

  /** A type pattern never finds the ids filed under a nil or empty value (the
      hidden file `.jsonl`) or under a name starting with a dot, while a plain
      value still does. */
  lemma HiddenFilesSkipped(postings: map<string, seq<Id>>, names: set<string>, n: string, id: Id)
    requires n in postings && id in postings[n] && !Globbed(n)
    requires forall m :: m in postings && m != n ==> id !in postings[m]
    ensures !Satisfies(postings, TypeIn(names), id)
    ensures n == "" ==> Satisfies(postings, Equals(Null), id)
  {
  }

  /** The resolved list of a plain value: that one posting file's ids,
      duplicates removed, or none if the file does not exist. */
  function PlainList(postings: map<string, seq<Id>>, v: Scalar): seq<Id>
  {
    if ToS(v) in postings then Uniq(postings[ToS(v)]) else []
  }

  /** `ids` is what `read` may resolve condition `c` to under a key whose
      posting lists are `postings`. */
  ghost predicate ResolvedAs(postings: map<string, seq<Id>>, c: Cond, ids: seq<Id>)
  {
    && NoDup(ids)
    && (forall id :: id in ids <==> Satisfies(postings, c, id))
    && (c.Equals? ==> ids == PlainList(postings, c.v))
  }

  /** `matched_id_sets` after the loop over the clause: one resolved list per
      key that has an index directory, in clause order. */
  ghost predicate Resolves(ix: Index, clause: seq<(string, Cond)>, resolved: seq<seq<Id>>)
    decreases |clause|
  {
    if |clause| == 0 then resolved == []
    else
      var (k, c) := clause[|clause| - 1];
      if k in ix then
        && |resolved| > 0
        && Resolves(ix, clause[..|clause| - 1], resolved[..|resolved| - 1])
        && ResolvedAs(ix[k], c, resolved[|resolved| - 1])
      else Resolves(ix, clause[..|clause| - 1], resolved)
  }

  /** `matched_ids`: nothing when no key was indexed or some list is empty,
      otherwise the fold of `&`. */
  function MatchedIds(resolved: seq<seq<Id>>): seq<Id>
  {
    if resolved == [] || exists j :: 0 <= j < |resolved| && resolved[j] == [] then []
    else Reduce(resolved)
  }

  /** The events `read` returns for the resolved lists. */
  function ReadResult(events: map<Id, Body>, resolved: seq<seq<Id>>): seq<Body>
  {
    Bodies(events, MatchedIds(resolved))
  }

  /** Some key of the clause has an index directory. */
  ghost predicate AnyIndexed(ix: Index, clause: seq<(string, Cond)>)
  {
    exists j :: 0 <= j < |clause| && clause[j].0 in ix
  }

  /** The id satisfies the condition of every key that has an index directory. */
  ghost predicate SatisfiesAll(ix: Index, clause: seq<(string, Cond)>, id: Id)
  {
    forall j :: 0 <= j < |clause| && clause[j].0 in ix ==> Satisfies(ix[clause[j].0], clause[j].1, id)
  }

  /** What the loop over the clause establishes: there is a list exactly when
      some key is indexed, every list is duplicate-free, and an id is in all
      of them exactly when it satisfies every indexed key. */
  lemma {:induction false} ResolvesMeaning(ix: Index, clause: seq<(string, Cond)>, resolved: seq<seq<Id>>)
    requires Resolves(ix, clause, resolved)
    ensures |resolved| > 0 <==> AnyIndexed(ix, clause)
    ensures forall j :: 0 <= j < |resolved| ==> NoDup(resolved[j])
    ensures forall id :: InAll(id, resolved) <==> SatisfiesAll(ix, clause, id)
  {
    if |clause| > 0 {
      var m := |clause| - 1;
      var init := clause[..m];
      var (k, c) := clause[m];
      assert forall j :: 0 <= j < m ==> init[j] == clause[j];
      if k in ix {
        var prev := resolved[..|resolved| - 1];
        ResolvesMeaning(ix, init, prev);
        assert resolved == prev + [resolved[|resolved| - 1]];
        forall id ensures InAll(id, resolved) <==> SatisfiesAll(ix, clause, id) {
          assert InAll(id, resolved) <==> InAll(id, prev) && id in resolved[|resolved| - 1];
          assert SatisfiesAll(ix, clause, id) <==> SatisfiesAll(ix, init, id) && Satisfies(ix[k], c, id);
        }
      } else {
        ResolvesMeaning(ix, init, resolved);
        assert AnyIndexed(ix, clause) <==> AnyIndexed(ix, init);
        forall id ensures SatisfiesAll(ix, clause, id) <==> SatisfiesAll(ix, init, id) {
        }
      }
    }
  }

  /** Soundness and completeness of `read`: the ids whose bodies it returns are
      exactly those that have a body, are found by every indexed key of the
      clause, and there is at least one indexed key. No id is returned twice,
      every returned event is the stored body, and there are never more events
      than matched ids (ids with no body are dropped, not raised). */
  lemma ReadMeaning(events: map<Id, Body>, ix: Index, clause: seq<(string, Cond)>, resolved: seq<seq<Id>>)
    requires Resolves(ix, clause, resolved)
    ensures forall id :: id in Live(events, MatchedIds(resolved)) <==>
              id in events && AnyIndexed(ix, clause) && SatisfiesAll(ix, clause, id)
    ensures NoDup(Live(events, MatchedIds(resolved)))
    ensures |ReadResult(events, resolved)| == |Live(events, MatchedIds(resolved))| <= |MatchedIds(resolved)|
    ensures forall j :: 0 <= j < |ReadResult(events, resolved)| ==>
              ReadResult(events, resolved)[j] == events[Live(events, MatchedIds(resolved))[j]]
  {
    ResolvesMeaning(ix, clause, resolved);
    if resolved != [] {
      if exists j :: 0 <= j < |resolved| && resolved[j] == [] {
        var j :| 0 <= j < |resolved| && resolved[j] == [];
        assert forall id :: !InAll(id, resolved);
      } else {
        ReduceIsFilterOfFirst(resolved);
        assert forall id :: InAll(id, resolved) <==> id in resolved[0] && InAll(id, resolved[1..]) by {
          forall id ensures InAll(id, resolved) <==> id in resolved[0] && InAll(id, resolved[1..]) {
            if id in resolved[0] && InAll(id, resolved[1..]) {
              forall j | 0 <= j < |resolved| ensures id in resolved[j] {
                if j > 0 { assert resolved[1..][j - 1] == resolved[j]; }
              }
            }
          }
        }
      }
    }
  }

  /** Order of `read`: when every indexed key found something, the ids come in
      the order of the first indexed key's resolved list (Ruby's `&` keeps the
      order of its left operand), filtered to those in all other lists and with
      a body. */
  lemma ReadOrder(events: map<Id, Body>, ix: Index, clause: seq<(string, Cond)>, resolved: seq<seq<Id>>)
    requires Resolves(ix, clause, resolved)
    requires resolved != [] && forall j :: 0 <= j < |resolved| ==> resolved[j] != []
    ensures Live(events, MatchedIds(resolved)) == Live(events, KeepAll(resolved[0], resolved[1..]))
  {
    ResolvesMeaning(ix, clause, resolved);
    ReduceIsFilterOfFirst(resolved);
  }

  /** The first resolved list is that of the first key of the clause that has an
      index directory. */
  lemma {:induction false} FirstResolved(ix: Index, clause: seq<(string, Cond)>, resolved: seq<seq<Id>>, f: nat)
    requires Resolves(ix, clause, resolved)
    requires f < |clause| && clause[f].0 in ix
    requires forall g :: 0 <= g < f ==> clause[g].0 !in ix
    ensures resolved != [] && ResolvedAs(ix[clause[f].0], clause[f].1, resolved[0])
  {
    var m := |clause| - 1;
    var init := clause[..m];
    var (k, c) := clause[m];
    if f == m {
      var prev := resolved[..|resolved| - 1];
      ResolvesMeaning(ix, init, prev);
      assert !AnyIndexed(ix, init);
    } else if k in ix {
      FirstResolved(ix, init, resolved[..|resolved| - 1], f);
    } else {
      FirstResolved(ix, init, resolved, f);
    }
  }

  /** With a plain value under the first indexed key, `read` returns events in
      the order of that key's posting file (first occurrences). */
  lemma ReadOrderPlainFirst(events: map<Id, Body>, ix: Index, clause: seq<(string, Cond)>,
                            resolved: seq<seq<Id>>, f: nat)
    requires Resolves(ix, clause, resolved)
    requires f < |clause| && clause[f].0 in ix && clause[f].1.Equals?
    requires forall g :: 0 <= g < f ==> clause[g].0 !in ix
    requires forall j :: 0 <= j < |resolved| ==> resolved[j] != []
    ensures resolved != []
    ensures Live(events, MatchedIds(resolved)) ==
            Live(events, KeepAll(PlainList(ix[clause[f].0], clause[f].1.v), resolved[1..]))
  {
    FirstResolved(ix, clause, resolved, f);
    ReadOrder(events, ix, clause, resolved);
  }

  /** A key without an index directory imposes no constraint: adding it to a
      clause leaves the resolved lists, and so the result, unchanged. */
  lemma UnindexedKeyIgnored(ix: Index, clause: seq<(string, Cond)>, k: string, c: Cond, resolved: seq<seq<Id>>)
    requires k !in ix
    ensures Resolves(ix, clause + [(k, c)], resolved) <==> Resolves(ix, clause, resolved)
  {
    assert (clause + [(k, c)])[..|clause|] == clause;
  }

  /** A clause none of whose keys is indexed, and in particular the empty
      clause, reads nothing. */
  lemma NothingIndexedReadsNothing(events: map<Id, Body>, ix: Index, clause: seq<(string, Cond)>, resolved: seq<seq<Id>>)
    requires Resolves(ix, clause, resolved)
    requires !AnyIndexed(ix, clause)
    ensures ReadResult(events, resolved) == []
  {
    ResolvesMeaning(ix, clause, resolved);
  }
}
