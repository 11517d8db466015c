/**
 * The inverted index: a dictionary from each word to the list of ids of the
 * documents it occurs in, built by visiting the documents in the document
 * dictionary's order and the words of each document in text order.
 */
module InvertedIndexes {
  import opened OrderedMaps
  import opened Text
  import opened Records

  /** `InvertedIndex.index`: word to posting list. */
  type Index = OrderedMap<string, seq<int>>

  /** `InvertedIndex.__eq__`: dictionary equality, which ignores key order but not list order. */
  function Equal(a: Index, b: Index): (eq: bool)
    requires Valid(a) && Valid(b)
    ensures eq <==>
      && (forall w :: w in a.keys <==> w in b.keys)
      && (forall w :: w in a.keys ==> a.entries[w] == b.entries[w])
  {
    a.entries == b.entries
  }

  /** The position of the first `x` in `s`, or `|s|` when `x` does not occur. */
  function Pos(s: seq<int>, x: int): (i: nat)
    ensures i <= |s|
    ensures i < |s| ==> s[i] == x
    ensures forall k :: 0 <= k < i ==> s[k] != x
  {
    if s == [] || s[0] == x then 0 else 1 + Pos(s[1..], x)
  }

  /** One step of the inner loop: record that document `k` contains `w`, at most once. */
  function AddPosting(idx: Index, w: string, k: int): Index {
    if w !in idx.entries then Put(idx, w, [k])
    else if k !in idx.entries[w] then Put(idx, w, idx.entries[w] + [k])
    else idx
  }

  /** The inner loop run over `words`, the pieces of document `k`'s text. */
  function AddWords(idx: Index, k: int, words: seq<string>): Index {
    if words == [] then idx
    else AddPosting(AddWords(idx, k, words[..|words| - 1]), words[|words| - 1], k)
  }

  /** The index after the outer loop has visited the first `n` documents. */
  function BuildPrefix(docs: Documents, n: nat): Index
    requires Valid(docs) && n <= |docs.keys|
  {
    if n == 0 then Empty()
    else
      var k := docs.keys[n - 1];
      AddWords(BuildPrefix(docs, n - 1), k, Split(docs.entries[k]))
  }

  /** `build_inverted_index(documents).index`. */
  function BuildSpec(docs: Documents): Index
    requires Valid(docs)
  {
    BuildPrefix(docs, |docs.keys|)
  }

  /** `build_inverted_index`: the outer loop, over the documents in dictionary order. */
  method Build(docs: Documents) returns (idx: Index)
    requires Valid(docs)
    ensures idx == BuildSpec(docs)
  {
    idx := Empty();
    var i := 0;
    while i < |docs.keys|
      invariant 0 <= i <= |docs.keys|
      invariant idx == BuildPrefix(docs, i)
    {
      var key := docs.keys[i];
      BuildPrefixStep(docs, i);
      idx := IndexDocument(idx, key, docs.entries[key]);
      i := i + 1;
    }
  }

  /** Visiting one more document runs the inner loop over its text. */
  lemma BuildPrefixStep(docs: Documents, i: nat)
    requires Valid(docs) && i < |docs.keys|
    ensures docs.keys[i] in docs.entries
    ensures BuildPrefix(docs, i + 1) == AddWords(BuildPrefix(docs, i), docs.keys[i], Split(docs.entries[docs.keys[i]]))
  {
  }

  /**
   * The inner loop of `build_inverted_index`, over the pieces of one
   * document's text: each piece gets the document's id appended to its list
   * unless the list already holds it, and a new piece starts a list.
   */
  method IndexDocument(idx0: Index, key: int, text: string) returns (idx: Index)
    ensures idx == AddWords(idx0, key, Split(text))
  {
    var words := Split(text);
    idx := idx0;
    var j := 0;
    assert words[..0] == [];
    while j < |words|
      invariant 0 <= j <= |words|
      invariant idx == AddWords(idx0, key, words[..j])
    {
      assert words[..j + 1][..j] == words[..j];
      var word := words[j];
      if word !in idx.entries {
        idx := Put(idx, word, [key]);
      } else if key !in idx.entries[word] {
        idx := Put(idx, word, idx.entries[word] + [key]);
      }
      j := j + 1;
    }
    assert words[..j] == words;
  }

  /**
   * Document `k` has been accounted for under word `w` once the outer loop
   * has passed it (the first `n` documents) or the inner loop, busy with
   * document `n`, has met `w` among the pieces `ws` it has visited so far.
   */
  ghost predicate Seen(docs: Documents, n: nat, ws: seq<string>, w: string, k: int)
    requires Valid(docs)
  {
    || (k in docs.entries && Pos(docs.keys, k) < n && w in Split(docs.entries[k]))
    || (n < |docs.keys| && k == docs.keys[n] && w in ws)
  }

  /**
   * What the index holds part-way through building: every list is non-empty;
   * document `k` is in `w`'s list exactly when it has been seen with `w`; and
   * each list is ordered by the documents' visiting positions.
   */
  ghost predicate Inv(docs: Documents, n: nat, ws: seq<string>, idx: Index)
    requires Valid(docs)
  {
    && Valid(idx)
    && (forall w :: w in idx.entries ==> idx.entries[w] != [])
    && (forall w, k :: w in idx.entries && k in idx.entries[w] ==> Seen(docs, n, ws, w, k))
    && (forall w, k :: Seen(docs, n, ws, w, k) ==> w in idx.entries && k in idx.entries[w])
    && (forall w, i, j :: w in idx.entries && 0 <= i < j < |idx.entries[w]| ==>
          Pos(docs.keys, idx.entries[w][i]) < Pos(docs.keys, idx.entries[w][j]))
  }

  /** A distinct sequence has each element at its own position. */
  lemma PosOfDistinct(s: seq<int>, i: nat)
    requires Distinct(s) && i < |s|
    ensures Pos(s, s[i]) == i
  {
  }

  /** One inner-loop step keeps the building invariant. */
  lemma AddPostingInv(docs: Documents, n: nat, ws: seq<string>, w: string, idx: Index)
    requires Valid(docs) && n < |docs.keys|
    requires Inv(docs, n, ws, idx)
    ensures Inv(docs, n, ws + [w], AddPosting(idx, w, docs.keys[n]))
  {
    var k := docs.keys[n];
    var r := AddPosting(idx, w, k);
    PosOfDistinct(docs.keys, n);
    forall w', k' | Seen(docs, n, ws + [w], w', k')
      ensures w' in r.entries && k' in r.entries[w']
    {
      if !Seen(docs, n, ws, w', k') {
        assert w' == w && k' == k;
      }
    }
    forall w', k' | w' in r.entries && k' in r.entries[w']
      ensures Seen(docs, n, ws + [w], w', k')
    {
      if w' != w || k' != k {
        assert k' in idx.entries[w'];
      }
    }
    if w in idx.entries && k !in idx.entries[w] {
      var l := idx.entries[w];
      forall i | 0 <= i < |l|
        ensures Pos(docs.keys, l[i]) < n
      {
        assert Seen(docs, n, ws, w, l[i]);
      }
      assert r.entries[w] == l + [k];
    }
  }

  /** The inner loop keeps the building invariant. */
  lemma {:induction false} AddWordsInv(docs: Documents, n: nat, words: seq<string>, idx: Index)
    requires Valid(docs) && n < |docs.keys|
    requires Inv(docs, n, [], idx)
    ensures Inv(docs, n, words, AddWords(idx, docs.keys[n], words))
    decreases |words|
  {
    if words != [] {
      var init := words[..|words| - 1];
      AddWordsInv(docs, n, init, idx);
      AddPostingInv(docs, n, init, words[|words| - 1], AddWords(idx, docs.keys[n], init));
      assert init + [words[|words| - 1]] == words;
    }
  }

  /** The outer loop keeps the building invariant. */
  lemma {:induction false} BuildPrefixInv(docs: Documents, n: nat)
    requires Valid(docs) && n <= |docs.keys|
    ensures Inv(docs, n, [], BuildPrefix(docs, n))
  {
    if n > 0 {
      var k := docs.keys[n - 1];
      var words := Split(docs.entries[k]);
      BuildPrefixInv(docs, n - 1);
      AddWordsInv(docs, n - 1, words, BuildPrefix(docs, n - 1));
      PosOfDistinct(docs.keys, n - 1);
      forall w, k' ensures Seen(docs, n - 1, words, w, k') <==> Seen(docs, n, [], w, k') {
        SeenAdvance(docs, n, w, k');
      }
    }
  }

  /** Finishing document `n - 1` moves its words from the inner loop's part of `Seen` to the outer loop's. */
  lemma SeenAdvance(docs: Documents, n: nat, w: string, k': int)
    requires Valid(docs) && 0 < n <= |docs.keys|
    ensures Seen(docs, n - 1, Split(docs.entries[docs.keys[n - 1]]), w, k') <==> Seen(docs, n, [], w, k')
  {
    PosOfDistinct(docs.keys, n - 1);
    if k' in docs.entries && Pos(docs.keys, k') == n - 1 {
      assert k' == docs.keys[n - 1];
    }
  }

  /** Document `k` is in `w`'s list exactly when `w` is a piece of document `k`'s text. */
  lemma BuildMembership(docs: Documents, w: string, k: int)
    requires Valid(docs)
    ensures var idx := BuildSpec(docs);
      w in idx.entries && k in idx.entries[w] <==> k in docs.entries && w in Split(docs.entries[k])
  {
    BuildPrefixInv(docs, |docs.keys|);
    assert k in docs.entries ==> Pos(docs.keys, k) < |docs.keys|;
    assert Seen(docs, |docs.keys|, [], w, k) <==> k in docs.entries && w in Split(docs.entries[k]);
  }

  /**
   * Splitting keeps empty pieces, so a document whose text ends with a
   * separator (a line terminator, say) is filed under the empty word.
   */
  lemma BuildEmptyWord(docs: Documents, k: int)
    requires Valid(docs) && k in docs.entries
    requires var t := docs.entries[k]; t == [] || !IsWordChar(t[|t| - 1])
    ensures "" in BuildSpec(docs).entries && k in BuildSpec(docs).entries[""]
  {
    var words := Split(docs.entries[k]);
    SplitLast(docs.entries[k]);
    assert words[|words| - 1] in words;
    BuildMembership(docs, "", k);
  }

  /** The built index is a well-formed dictionary, and every word in it has a non-empty list. */
  lemma BuildWellFormed(docs: Documents)
    requires Valid(docs)
    ensures Valid(BuildSpec(docs))
    ensures forall w :: w in BuildSpec(docs).entries ==> BuildSpec(docs).entries[w] != []
  {
    BuildPrefixInv(docs, |docs.keys|);
  }

  /**
   * Each list of the built index follows the order in which the documents
   * were visited, so no id appears twice in one list.
   */
  lemma BuildVisitOrder(docs: Documents, w: string)
    requires Valid(docs)
    requires w in BuildSpec(docs).entries
    ensures var l := BuildSpec(docs).entries[w];
      && (forall i, j :: 0 <= i < j < |l| ==> Pos(docs.keys, l[i]) < Pos(docs.keys, l[j]))
      && Distinct(l)
  {
    BuildPrefixInv(docs, |docs.keys|);
    var l := BuildSpec(docs).entries[w];
    forall i, j | 0 <= i < j < |l|
      ensures l[i] != l[j]
    {
      assert Pos(docs.keys, l[i]) < Pos(docs.keys, l[j]);
    }
  }

  predicate StrictlyIncreasing(s: seq<int>) {
    forall i, j :: 0 <= i < j < |s| ==> s[i] < s[j]
  }

  /** When the documents are visited in ascending id order, every posting list is strictly increasing. */
  lemma BuildAscending(docs: Documents)
    requires Valid(docs) && StrictlyIncreasing(docs.keys)
    ensures var idx := BuildSpec(docs);
      forall w :: w in idx.entries ==> StrictlyIncreasing(idx.entries[w])
  {
    var idx := BuildSpec(docs);
    forall w | w in idx.entries
      ensures StrictlyIncreasing(idx.entries[w])
    {
      BuildVisitOrder(docs, w);
      var l := idx.entries[w];
      forall i, j | 0 <= i < j < |l|
        ensures l[i] < l[j]
      {
        var p, q := Pos(docs.keys, l[i]), Pos(docs.keys, l[j]);
        BuildMembership(docs, w, l[i]);
        BuildMembership(docs, w, l[j]);
        assert docs.keys[p] == l[i] && docs.keys[q] == l[j];
      }
    }
  }

  /** The test that building twice from the same documents gives equal indexes. */
  method BuildTwice(docs: Documents) returns (eq: bool)
    requires Valid(docs)
    ensures eq
  {
    var first := Build(docs);
    var second := Build(docs);
    BuildWellFormed(docs);
    eq := Equal(first, second);
  }
}
