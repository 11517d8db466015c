/**
 * `InvertedIndex.query`: the documents that contain every word of a query,
 * computed by intersecting posting lists one word at a time.  The running
 * result is a list until the first intersection and a set afterwards, and an
 * empty running result is treated like the start of the query, so the next
 * word's list replaces it instead of being intersected with it.
 */
module Queries {
  import opened OrderedMaps
  import opened InvertedIndexes

  /** `self.index.get(word, None)`, where a missing word counts as an empty list. */
  function Lookup(idx: Index, w: string): seq<int> {
    if w in idx.entries then idx.entries[w] else []
  }

  function SetOf(l: seq<int>): set<int> {
    set x | x in l
  }

  /**
   * `relevant_documents` between two words: still the copy of one posting
   * list, or the set an intersection produced (listed in an order the model
   * leaves open).
   */
  datatype Running = Listed(list: seq<int>) | Hashed(elems: set<int>)

  /** The truth value of the running list. */
  predicate Truthy(acc: Running) {
    match acc
    case Listed(l) => l != []
    case Hashed(s) => s != {}
  }

  function Elems(acc: Running): set<int> {
    match acc
    case Listed(l) => SetOf(l)
    case Hashed(s) => s
  }

  /** The loop run over the remaining `words`, starting from the running result `acc`. */
  function QueryFrom(idx: Index, words: seq<string>, acc: Running): Running
    decreases |words|
  {
    if words == [] then acc
    else
      var docs := Lookup(idx, words[0]);
      if docs == [] then Listed([])
      else if !Truthy(acc) then QueryFrom(idx, words[1..], Listed(docs))
      else QueryFrom(idx, words[1..], Hashed(Elems(acc) * SetOf(docs)))
  }

  /** What `query(words)` computes. */
  function QuerySpec(idx: Index, words: seq<string>): Running {
    QueryFrom(idx, words, Listed([]))
  }

  /** `r` is what Python returns for the running result: the list itself, or the set listed once each. */
  predicate Realizes(r: seq<int>, acc: Running) {
    match acc
    case Listed(l) => r == l
    case Hashed(s) => Distinct(r) && SetOf(r) == s
  }

  lemma RealizesTruthy(r: seq<int>, acc: Running)
    requires Realizes(r, acc)
    ensures r == [] <==> !Truthy(acc)
    ensures SetOf(r) == Elems(acc)
  {
    if r != [] {
      assert r[0] in SetOf(r);
    }
  }

  lemma SomeElement(s: set<int>)
    requires s != {}
    ensures exists x :: x in s
  {
    if forall y :: y !in s { }
  }

  /** `list(s)`: the elements of a set, each once, in some order. */
  method ListOfSet(s: set<int>) returns (r: seq<int>)
    ensures Distinct(r) && SetOf(r) == s
  {
    r := [];
    var rest := s;
    while rest != {}
      invariant Distinct(r)
      invariant SetOf(r) + rest == s
      invariant SetOf(r) !! rest
      decreases |rest|
    {
      SomeElement(rest);
      var x :| x in rest;
      r := r + [x];
      rest := rest - {x};
    }
  }

  /** `InvertedIndex.query`, reproducing the loop as written. */
  method Query(idx: Index, words: seq<string>) returns (r: seq<int>)
    ensures Realizes(r, QuerySpec(idx, words))
    ensures words == [] ==> r == []
  {
    r := [];
    ghost var acc := Listed([]);
    var i := 0;
    while i < |words|
      invariant 0 <= i <= |words|
      invariant QueryFrom(idx, words[i..], acc) == QuerySpec(idx, words)
      invariant Realizes(r, acc)
    {
      assert words[i..][1..] == words[i + 1..];
      var docs := if words[i] in idx.entries then idx.entries[words[i]] else [];
      if docs == [] {
        return [];
      }
      RealizesTruthy(r, acc);
      if r == [] {
        r := docs;
        acc := Listed(docs);
      } else {
        var s := SetOf(r) * SetOf(docs);
        r := ListOfSet(s);
        acc := Hashed(s);
      }
      i := i + 1;
    }
  }

  /** The documents in every word's list: the answer a conjunctive query promises. */
  function Conjunction(idx: Index, words: seq<string>): set<int>
    requires words != []
  {
    set x | x in Lookup(idx, words[0]) && forall j :: 0 <= j < |words| ==> x in Lookup(idx, words[j])
  }

  lemma ConjunctionSingle(idx: Index, w: string)
    ensures Conjunction(idx, [w]) == SetOf(Lookup(idx, w))
  {
  }

  /** Each list bounds the conjunction. */
  lemma ConjunctionWithin(idx: Index, words: seq<string>, i: nat)
    requires i < |words|
    ensures Conjunction(idx, words) <= SetOf(Lookup(idx, words[i]))
  {
  }

  lemma {:induction false} ConjunctionSnoc(idx: Index, pre: seq<string>, w: string)
    requires pre != []
    ensures Conjunction(idx, pre + [w]) == Conjunction(idx, pre) * SetOf(Lookup(idx, w))
  {
    var ws := pre + [w];
    forall x | x in Conjunction(idx, pre) * SetOf(Lookup(idx, w))
      ensures x in Conjunction(idx, ws)
    {
      forall j | 0 <= j < |ws|
        ensures x in Lookup(idx, ws[j])
      {
        if j < |pre| {
          assert ws[j] == pre[j];
        }
      }
    }
    forall x | x in Conjunction(idx, ws)
      ensures x in Conjunction(idx, pre)
    {
      forall j | 0 <= j < |pre|
        ensures x in Lookup(idx, pre[j])
      {
        assert ws[j] == pre[j];
      }
    }
    assert ws[|pre|] == w;
  }

  /** An absent word, or one with an empty list, makes the whole query return `[]`. */
  lemma {:induction false} QueryMissing(idx: Index, words: seq<string>, i: nat, acc: Running)
    requires i < |words| && Lookup(idx, words[i]) == []
    ensures QueryFrom(idx, words, acc) == Listed([])
    decreases i
  {
    if i > 0 && Lookup(idx, words[0]) != [] {
      var docs := Lookup(idx, words[0]);
      var next := if !Truthy(acc) then Listed(docs) else Hashed(Elems(acc) * SetOf(docs));
      assert words[1..][i - 1] == words[i];
      QueryMissing(idx, words[1..], i - 1, next);
    }
  }

  /** A query of one present word returns that word's list unchanged. */
  lemma QuerySingle(idx: Index, w: string)
    requires Lookup(idx, w) != []
    ensures QuerySpec(idx, [w]) == Listed(Lookup(idx, w))
  {
    assert [w][1..] == [];
    assert QuerySpec(idx, [w]) == QueryFrom(idx, [], Listed(Lookup(idx, w)));
  }

  /** A query of two present words returns the intersection of their lists. */
  lemma QueryPair(idx: Index, a: string, b: string)
    requires Lookup(idx, a) != [] && Lookup(idx, b) != []
    ensures QuerySpec(idx, [a, b]) == Hashed(Conjunction(idx, [a, b]))
  {
    var la := Lookup(idx, a);
    assert la[0] in SetOf(la);
    assert [a, b][1..] == [b];
    assert [b][1..] == [];
    assert QuerySpec(idx, [a, b]) == QueryFrom(idx, [b], Listed(la));
    assert QuerySpec(idx, [a, b]) == QueryFrom(idx, [], Hashed(SetOf(la) * SetOf(Lookup(idx, b))));
    ConjunctionSingle(idx, a);
    ConjunctionSnoc(idx, [a], b);
    assert [a] + [b] == [a, b];
  }

  /** Whatever the running result, the answer lies within the last word's list. */
  lemma {:induction false} QueryWithinLast(idx: Index, words: seq<string>, acc: Running)
    requires words != []
    ensures Elems(QueryFrom(idx, words, acc)) <= SetOf(Lookup(idx, words[|words| - 1]))
    decreases |words|
  {
    var docs := Lookup(idx, words[0]);
    if docs != [] && |words| > 1 {
      var next := if !Truthy(acc) then Listed(docs) else Hashed(Elems(acc) * SetOf(docs));
      QueryWithinLast(idx, words[1..], next);
      assert words[1..][|words| - 2] == words[|words| - 1];
    }
  }

  /**
   * No intersection the loop carries on from is empty: every proper prefix
   * of the query has a non-empty conjunction.  The whole query's may be empty.
   */
  predicate NoEmptyIntermediate(idx: Index, words: seq<string>) {
    forall n :: 1 <= n < |words| ==> Conjunction(idx, words[..n]) != {}
  }

  /** Continuing from a running result that holds the conjunction of the words already seen. */
  lemma {:induction false} QueryFromConjunction(idx: Index, pre: seq<string>, rest: seq<string>, acc: Running)
    requires pre != [] && Elems(acc) == Conjunction(idx, pre)
    requires forall n :: |pre| <= n < |pre + rest| ==> Conjunction(idx, (pre + rest)[..n]) != {}
    ensures Elems(QueryFrom(idx, rest, acc)) == Conjunction(idx, pre + rest)
    decreases |rest|
  {
    if rest == [] {
      assert pre + rest == pre;
    } else {
      var w := rest[0];
      var docs := Lookup(idx, w);
      assert (pre + rest)[|pre|] == w;
      if docs == [] {
        ConjunctionWithin(idx, pre + rest, |pre|);
      } else {
        var ws := pre + [w];
        assert (pre + rest)[..|pre|] == pre;
        assert Conjunction(idx, pre) != {};
        ConjunctionSnoc(idx, pre, w);
        SomeElement(Conjunction(idx, pre));
        var x :| x in Conjunction(idx, pre);
        assert Truthy(acc) by {
          if acc.Listed? {
            assert x in SetOf(acc.list);
          }
        }
        assert ws + rest[1..] == pre + rest;
        QueryFromConjunction(idx, ws, rest[1..], Hashed(Elems(acc) * SetOf(docs)));
      }
    }
  }

  /**
   * While no intersection the loop continues from comes out empty, the
   * query returns the conjunction of all the lists, the last one included.
   */
  lemma QueryIsConjunction(idx: Index, words: seq<string>)
    requires words != [] && NoEmptyIntermediate(idx, words)
    ensures Elems(QuerySpec(idx, words)) == Conjunction(idx, words)
  {
    var w := words[0];
    var docs := Lookup(idx, w);
    if docs == [] {
      QueryMissing(idx, words, 0, Listed([]));
      ConjunctionWithin(idx, words, 0);
    } else {
      ConjunctionSingle(idx, w);
      assert [w] + words[1..] == words;
      QueryFromConjunction(idx, [w], words[1..], Listed(docs));
    }
  }

  /** The index of two documents, `1` holding the words `a` and `b` and `2` the word `c`. */
  function QuirkIndex(): Index {
    OrderedMap(["a", "b", "c"], map["a" := [1], "b" := [1], "c" := [2]])
  }

  /**
   * Once the running intersection is empty the next list replaces it: the
   * query `a c b` answers document 1, which does not contain `c`.
   */
  lemma QueryQuirk()
    ensures QuerySpec(QuirkIndex(), ["a", "c", "b"]) == Listed([1])
    ensures Conjunction(QuirkIndex(), ["a", "c", "b"]) == {}
  {
  }

  /**
   * The query as its contract intends: every word after the first narrows
   * the running result, so the answer is exactly the conjunction.
   */
  method QueryConjunctive(idx: Index, words: seq<string>) returns (r: seq<int>)
    ensures words == [] ==> r == []
    ensures words != [] ==> SetOf(r) == Conjunction(idx, words)
    ensures |words| == 1 ==> r == Lookup(idx, words[0])
  {
    r := [];
    var i := 0;
    while i < |words|
      invariant 0 <= i <= |words|
      invariant i == 0 ==> r == []
      invariant i > 0 ==> SetOf(r) == Conjunction(idx, words[..i])
      invariant i == 1 ==> r == Lookup(idx, words[0])
    {
      var docs := if words[i] in idx.entries then idx.entries[words[i]] else [];
      assert words[..i + 1] == words[..i] + [words[i]];
      if docs == [] {
        ConjunctionWithin(idx, words, i);
        return [];
      }
      if i == 0 {
        r := docs;
        assert words[..1] == [words[0]];
        ConjunctionSingle(idx, words[0]);
      } else {
        ConjunctionSnoc(idx, words[..i], words[i]);
        var s := SetOf(r) * SetOf(docs);
        r := ListOfSet(s);
      }
      i := i + 1;
    }
    assert words[..i] == words;
  }
}
