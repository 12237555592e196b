/**
 * What allWords and predict return: exactly the stored words below a node,
 * each with its stored popularity, and for predict the k most popular
 * completions of the prefix, most popular first.
 */
module QueryFacts {
  import opened Wrappers
  import opened LinkedMap
  import opened Words
  import opened Ranking
  import opened Trie
  import opened TrieWalk

  /** x is stored below n: its string is soFar followed by a path from n ending at a word of popularity x.popularity. */
  ghost predicate StoredBelow(n: Node, soFar: string, x: Word)
  {
    soFar <= x.word && PopularityOf(n, x.word[|soFar|..]) == Some(x.popularity)
  }

  /** Every word allWordsRecur lists is stored below n. */
  lemma {:induction false} AllWordsSound(n: Node, soFar: string)
    requires Valid(n)
    ensures forall x :: x in AllWordsRecur(n, soFar) ==> StoredBelow(n, soFar, x)
    decreases n, |n.children| + 1
  {
    KidsWordsSound(n, soFar, |n.children|);
    forall x | x in AllWordsRecur(n, soFar) ensures StoredBelow(n, soFar, x) {
      if x !in WordsOfKids(n, soFar, |n.children|) {
        assert x == Word(soFar, n.popularity.value);
        assert x.word[|soFar|..] == [];
      }
    }
  }

  lemma {:induction false} KidsWordsSound(n: Node, soFar: string, i: nat)
    requires Valid(n) && i <= |n.children|
    ensures forall x :: x in WordsOfKids(n, soFar, i) ==> StoredBelow(n, soFar, x)
    decreases n, i
  {
    if i > 0 {
      KidsWordsSound(n, soFar, i - 1);
      var c, t := n.children[i - 1].0, n.children[i - 1].1;
      AllWordsSound(t, soFar + [c]);
      GetEntry(n.children, i - 1);
      forall x | x in AllWordsRecur(t, soFar + [c]) ensures StoredBelow(n, soFar, x) {
        var rest := x.word[|soFar|..];
        assert StoredBelow(t, soFar + [c], x);
        assert rest != [] && rest[0] == c && rest[1..] == x.word[|soFar| + 1..];
        PopularityViaChild(n, rest);
      }
    }
  }

  /** The words below the k-th child are among the words of the first i children, for k < i. */
  lemma {:induction false} KidWordsIncluded(n: Node, soFar: string, k: nat, i: nat)
    requires k < i <= |n.children|
    ensures forall x :: x in AllWordsRecur(n.children[k].1, soFar + [n.children[k].0]) ==> x in WordsOfKids(n, soFar, i)
    decreases i
  {
    if k < i - 1 {
      KidWordsIncluded(n, soFar, k, i - 1);
    }
  }

  /** A word listed by the kids' fold comes from one of the children. */
  lemma {:induction false} KidOf(n: Node, soFar: string, i: nat, y: Word) returns (j: nat)
    requires i <= |n.children| && y in WordsOfKids(n, soFar, i)
    ensures j < i && y in AllWordsRecur(n.children[j].1, soFar + [n.children[j].0])
    decreases i
  {
    if y in AllWordsRecur(n.children[i - 1].1, soFar + [n.children[i - 1].0]) {
      j := i - 1;
    } else {
      j := KidOf(n, soFar, i - 1, y);
    }
  }

  /** A word listed below the child under c starts with soFar + [c]. */
  lemma StartsWithEdge(n: Node, soFar: string, j: nat, x: Word)
    requires Valid(n) && j < |n.children|
    requires x in AllWordsRecur(n.children[j].1, soFar + [n.children[j].0])
    ensures |soFar| < |x.word| && soFar <= x.word && x.word[|soFar|] == n.children[j].0
  {
    var c := n.children[j].0;
    AllWordsSound(n.children[j].1, soFar + [c]);
    assert StoredBelow(n.children[j].1, soFar + [c], x);
    assert x.word[..|soFar| + 1] == soFar + [c];
  }

  /** allWordsRecur lists every stored word once: no two entries spell the same string. */
  lemma {:induction false} AllWordsDistinct(n: Node, soFar: string)
    requires Valid(n)
    ensures DistinctWords(AllWordsRecur(n, soFar))
    decreases n, |n.children| + 1
  {
    var kids := WordsOfKids(n, soFar, |n.children|);
    KidsWordsDistinct(n, soFar, |n.children|);
    var own := if IsWord(n) then [Word(soFar, n.popularity.value)] else [];
    forall x, y | x in own && y in kids ensures x.word != y.word {
      var k := KidOf(n, soFar, |n.children|, y);
      StartsWithEdge(n, soFar, k, y);
    }
    DistinctAppend(own, kids);
  }

  lemma {:induction false} KidsWordsDistinct(n: Node, soFar: string, i: nat)
    requires Valid(n) && i <= |n.children|
    ensures DistinctWords(WordsOfKids(n, soFar, i))
    decreases n, i
  {
    if i > 0 {
      var c, t := n.children[i - 1].0, n.children[i - 1].1;
      var earlier := WordsOfKids(n, soFar, i - 1);
      var below := AllWordsRecur(t, soFar + [c]);
      KidsWordsDistinct(n, soFar, i - 1);
      AllWordsDistinct(t, soFar + [c]);
      forall x, y | x in earlier && y in below ensures x.word != y.word {
        var k := KidOf(n, soFar, i - 1, x);
        StartsWithEdge(n, soFar, k, x);
        StartsWithEdge(n, soFar, i - 1, y);
      }
      DistinctAppend(earlier, below);
    }
  }

  /** Every word stored below n is listed by allWordsRecur, with its popularity. */
  lemma {:induction false} AllWordsComplete(n: Node, soFar: string, v: string)
    requires PopularityOf(n, v).Some?
    ensures Word(soFar + v, PopularityOf(n, v).value) in AllWordsRecur(n, soFar)
    decreases |v|
  {
    if v == [] {
      assert soFar + v == soFar;
    } else {
      var t := Get(n.children, v[0]).value;
      var k := IndexOf(n.children, v[0]).value;
      PopularityViaChild(n, v);
      AllWordsComplete(t, soFar + [v[0]], v[1..]);
      assert soFar + [v[0]] + v[1..] == soFar + v by {
        assert v == [v[0]] + v[1..];
      }
      KidWordsIncluded(n, soFar, k, |n.children|);
    }
  }

  /** A live node has at least one word at or below it. */
  lemma {:induction false} LiveHasWords(n: Node, soFar: string)
    requires Live(n)
    ensures AllWordsRecur(n, soFar) != []
    decreases n, |n.children| + 1
  {
    if !IsWord(n) {
      var c, t := n.children[0].0, n.children[0].1;
      LiveHasWords(t, soFar + [c]);
      KidWordsIncluded(n, soFar, 0, |n.children|);
      var x := AllWordsRecur(t, soFar + [c])[0];
      assert x in WordsOfKids(n, soFar, |n.children|);
    }
  }

  /** A ranked completion of u is a word of the tree starting with u, with its stored popularity. */
  lemma RankedWordStored(n: Node, u: string, m: Node, x: Word)
    requires Valid(n) && NodeAt(n, u) == Some(m) && x in Ranked(m, u)
    ensures u <= x.word && PopularityOf(n, x.word) == Some(x.popularity)
  {
    NodeAtValid(n, u);
    AllWordsSound(m, u);
    assert x in multiset(Ranked(m, u));
    assert StoredBelow(m, u, x);
    var rest := x.word[|u|..];
    assert x.word == u + rest;
    NodeAtAppend(n, u, rest);
  }

  /** A word of the tree starting with u is among the ranked completions of u. */
  lemma CompletionRanked(n: Node, u: string, m: Node, v: string)
    requires NodeAt(n, u) == Some(m) && u <= v && ContainsWord(n, v)
    ensures PopularityOf(n, v).Some?
    ensures Word(v, PopularityOf(n, v).value) in Ranked(m, u)
  {
    var rest := v[|u|..];
    assert v == u + rest;
    NodeAtAppend(n, u, rest);
    AllWordsComplete(m, u, rest);
    assert Word(v, PopularityOf(n, v).value) in multiset(AllWordsRecur(m, u));
  }

  /**
   * predict(prefix, k) fails exactly when the prefix's path exists and k is
   * not between 0 and the number of completions: with IllegalArgument for a
   * negative k, with IndexOutOfBounds for a k beyond the completions.
   */
  lemma PredictFailsIff(n: Node, u: string, k: int)
    ensures PredictPath(n, u, k).Failure? <==>
      NodeAt(n, u).Some? && (k < 0 || k > |AllWordsRecur(NodeAt(n, u).value, u)|)
    ensures PredictPath(n, u, k) == Failure(IllegalArgument) <==> NodeAt(n, u).Some? && k < 0
    ensures PredictPath(n, u, k) == Failure(IndexOutOfBounds) <==>
      NodeAt(n, u).Some? && 0 <= |AllWordsRecur(NodeAt(n, u).value, u)| < k
  {
    if NodeAt(n, u).Some? {
      var m := NodeAt(n, u).value;
      assert |multiset(Ranked(m, u))| == |multiset(AllWordsRecur(m, u))|;
    }
  }

  /** The i-th prediction is a stored completion of u carrying the i-th ranked popularity. */
  lemma PredictedWordStored(n: Node, u: string, m: Node, k: nat, i: nat)
    requires Valid(n) && NodeAt(n, u) == Some(m) && i < k <= |Ranked(m, u)|
    ensures u <= WordStrings(Ranked(m, u)[..k])[i]
    ensures PopularityOf(n, WordStrings(Ranked(m, u)[..k])[i]) == Some(Ranked(m, u)[i].popularity)
  {
    RankedWordStored(n, u, m, Ranked(m, u)[i]);
  }

  /** The first k ranked completions spell k different strings. */
  lemma PredictedDistinct(n: Node, u: string, m: Node, k: nat)
    requires Valid(n) && NodeAt(n, u) == Some(m) && k <= |Ranked(m, u)|
    ensures forall i, j :: 0 <= i < j < k ==> WordStrings(Ranked(m, u)[..k])[i] != WordStrings(Ranked(m, u)[..k])[j]
  {
    NodeAtValid(n, u);
    AllWordsDistinct(m, u);
    PermutationKeepsDistinct(AllWordsRecur(m, u), Ranked(m, u));
  }

  /** A stored completion of u left out of the first k ranked words is no more popular than any of them. */
  lemma OmittedNoMorePopular(n: Node, u: string, m: Node, k: nat, v: string)
    requires NodeAt(n, u) == Some(m) && k <= |Ranked(m, u)|
    requires u <= v && ContainsWord(n, v) && v !in WordStrings(Ranked(m, u)[..k])
    ensures PopularityOf(n, v).Some?
    ensures forall i :: 0 <= i < k ==> PopularityOf(n, v).value <= Ranked(m, u)[i].popularity
  {
    var ranked := Ranked(m, u);
    CompletionRanked(n, u, m, v);
    var j :| 0 <= j < |ranked| && ranked[j] == Word(v, PopularityOf(n, v).value);
    forall i | 0 <= i < k ensures ranked[i].word != v {
      assert WordStrings(ranked[..k])[i] == ranked[i].word;
    }
    assert NonIncreasing(ranked);
  }

  /**
   * predict(prefix, k) returns k different words of the tree starting with
   * the prefix, most popular first, and every other word starting with the
   * prefix is no more popular than any of them.
   */
  lemma PredictTopK(n: Node, u: string, k: int, r: seq<string>)
    requires Valid(n) && PredictPath(n, u, k) == Success(r)
    ensures NodeAt(n, u).Some? ==> |r| == k
    ensures NodeAt(n, u).None? ==> r == []
    ensures forall i :: 0 <= i < |r| ==> u <= r[i] && ContainsWord(n, r[i])
    ensures forall i, j :: 0 <= i < j < |r| ==>
      PopularityOf(n, r[i]).Some? && PopularityOf(n, r[j]).Some? &&
      PopularityOf(n, r[i]).value >= PopularityOf(n, r[j]).value
    ensures forall i, j :: 0 <= i < j < |r| ==> r[i] != r[j]
    ensures forall v :: u <= v && ContainsWord(n, v) && v !in r ==>
      forall i :: 0 <= i < |r| ==>
        PopularityOf(n, r[i]).Some? && PopularityOf(n, v).Some? &&
        PopularityOf(n, v).value <= PopularityOf(n, r[i]).value
  {
    if NodeAt(n, u).Some? {
      var m := NodeAt(n, u).value;
      var ranked := Ranked(m, u);
      assert 0 <= k <= |ranked| && r == WordStrings(ranked[..k]);
      PredictedDistinct(n, u, m, k);
      forall i | 0 <= i < |r| ensures PopularityOf(n, r[i]) == Some(ranked[i].popularity) && u <= r[i] {
        PredictedWordStored(n, u, m, k, i);
      }
      assert NonIncreasing(ranked);
      forall v | u <= v && ContainsWord(n, v) && v !in r
        ensures PopularityOf(n, v).Some? && forall i :: 0 <= i < |r| ==> PopularityOf(n, v).value <= ranked[i].popularity
      {
        OmittedNoMorePopular(n, u, m, k, v);
      }
    }
  }

  /**
   * predict(prefix) gives a word of the tree starting with the prefix that
   * is at least as popular as every other such word.
   */
  lemma PredictOneIsMostPopular(n: Node, u: string, s: string)
    requires Valid(n) && PredictOnePath(n, u) == Success(Some(s))
    ensures u <= s && ContainsWord(n, s)
    ensures forall v :: u <= v && ContainsWord(n, v) ==>
      PopularityOf(n, v).Some? && PopularityOf(n, s).Some? &&
      PopularityOf(n, v).value <= PopularityOf(n, s).value
  {
    var r := PredictPath(n, u, 1).value;
    PredictTopK(n, u, 1, r);
    assert r == [s];
  }

  /** predict(prefix) has no result exactly when the prefix's path is missing, and fails exactly when the path leads to no word. */
  lemma PredictOneOutcome(n: Node, u: string)
    ensures PredictOnePath(n, u) == Success(None) <==> NodeAt(n, u).None?
    ensures PredictOnePath(n, u).Failure? <==> NodeAt(n, u).Some? && AllWordsRecur(NodeAt(n, u).value, u) == []
    ensures PredictOnePath(n, u).Failure? ==> PredictOnePath(n, u).error == IndexOutOfBounds
  {
    PredictFailsIff(n, u, 1);
  }

  /** In a tree without dead nodes, predict(prefix) never fails for a non-empty prefix. */
  lemma PredictOneNeverFails(n: Node, u: string)
    requires NoDeadNodes(n) && u != []
    ensures PredictOnePath(n, u).Success?
  {
    PredictOneOutcome(n, u);
    if NodeAt(n, u).Some? {
      var t := Get(n.children, u[0]).value;
      assert (u[0], t) in n.children;
      NodeAtLive(t, u[1..]);
      LiveHasWords(NodeAt(n, u).value, u);
    }
  }

  /**
   * Ties keep the traversal order: the predicted words of any one
   * popularity come in the order allWordsRecur found them, as a prefix of
   * all the completions of that popularity.
   */
  lemma PredictKeepsTraversalOrder(n: Node, u: string, k: int, q: int)
    requires NodeAt(n, u).Some? && PredictPath(n, u, k).Success?
    ensures 0 <= k <= |Ranked(NodeAt(n, u).value, u)|
    ensures WithPopularity(Ranked(NodeAt(n, u).value, u)[..k], q) <= WithPopularity(AllWordsRecur(NodeAt(n, u).value, u), q)
  {
    var m := NodeAt(n, u).value;
    var ranked := Ranked(m, u);
    SortIsStable(AllWordsRecur(m, u), q);
    assert ranked == ranked[..k] + ranked[k..];
    WithPopularityAppend(ranked[..k], ranked[k..], q);
  }
}
