/**
 * The sort applied to predictions: a stable sort by Word.compareTo, so words
 * come out in non-increasing popularity and words of equal popularity keep
 * the order in which the traversal found them.
 */
module Ranking {
  import opened Words

  /** Popularity never increases from left to right. */
  predicate NonIncreasing(s: seq<Word>)
  {
    forall i, j :: 0 <= i < j < |s| ==> s[i].popularity >= s[j].popularity
  }

  /** No two entries of s spell the same string. */
  predicate DistinctWords(s: seq<Word>)
  {
    forall i, j :: 0 <= i < j < |s| ==> s[i].word != s[j].word
  }

  /** The words of s whose popularity is q, in the order s holds them. */
  function WithPopularity(s: seq<Word>, q: int): seq<Word>
  {
    if s == [] then []
    else (if s[0].popularity == q then [s[0]] else []) + WithPopularity(s[1..], q)
  }

  /**
   * Places x in a ranked sequence in front of the first word it ranks no
   * later than; x precedes the words of equal popularity, which came after it
   * in the input.
   */
  function InsertRanked(x: Word, t: seq<Word>): (r: seq<Word>)
    ensures multiset(r) == multiset(t) + multiset{x}
    ensures |r| == |t| + 1
  {
    if t == [] || RanksBefore(x, t[0]) then [x] + t
    else
      assert t == [t[0]] + t[1..];
      [t[0]] + InsertRanked(x, t[1..])
  }

  /** Every word of the insertion result is x or a word of t. */
  lemma InsertRankedMembers(x: Word, t: seq<Word>, i: nat)
    requires i < |InsertRanked(x, t)|
    ensures InsertRanked(x, t)[i] == x || InsertRanked(x, t)[i] in t
  {
    var r := InsertRanked(x, t);
    assert r[i] in multiset(r);
  }

  lemma {:induction false} InsertRankedSorted(x: Word, t: seq<Word>)
    requires NonIncreasing(t)
    ensures NonIncreasing(InsertRanked(x, t))
  {
    if t == [] || RanksBefore(x, t[0]) {
    } else {
      InsertRankedSorted(x, t[1..]);
      var rest := InsertRanked(x, t[1..]);
      forall i | 0 <= i < |rest| ensures t[0].popularity >= rest[i].popularity {
        InsertRankedMembers(x, t[1..], i);
      }
    }
  }

  /** Collections.sort over the comparator of Word, as a stable insertion sort. */
  function SortByPopularity(s: seq<Word>): (r: seq<Word>)
    ensures multiset(r) == multiset(s)
    ensures NonIncreasing(r)
  {
    if s == [] then []
    else
      assert s == [s[0]] + s[1..];
      InsertRankedSorted(s[0], SortByPopularity(s[1..]));
      InsertRanked(s[0], SortByPopularity(s[1..]))
  }

  lemma {:induction false} WithPopularityAppend(a: seq<Word>, b: seq<Word>, q: int)
    ensures WithPopularity(a + b, q) == WithPopularity(a, q) + WithPopularity(b, q)
  {
    if a == [] {
      assert a + b == b;
    } else {
      assert (a + b)[0] == a[0];
      assert (a + b)[1..] == a[1..] + b;
      WithPopularityAppend(a[1..], b, q);
    }
  }

  /** Inserting x adds x to the words of its own popularity, at their front. */
  lemma {:induction false} InsertRankedStable(x: Word, t: seq<Word>, q: int)
    ensures WithPopularity(InsertRanked(x, t), q)
         == (if x.popularity == q then [x] else []) + WithPopularity(t, q)
  {
    if t == [] || RanksBefore(x, t[0]) {
      WithPopularityAppend([x], t, q);
    } else {
      var rest := InsertRanked(x, t[1..]);
      InsertRankedStable(x, t[1..], q);
      WithPopularityAppend([t[0]], rest, q);
      WithPopularityAppend([t[0]], t[1..], q);
      assert [t[0]] + t[1..] == t;
    }
  }

  /**
   * Stability: for every popularity, the words having it appear in the
   * output in the same order as in the input.
   */
  lemma {:induction false} SortIsStable(s: seq<Word>, q: int)
    ensures WithPopularity(SortByPopularity(s), q) == WithPopularity(s, q)
  {
    if s != [] {
      SortIsStable(s[1..], q);
      InsertRankedStable(s[0], SortByPopularity(s[1..]), q);
    }
  }

  /** In a sequence of distinct words every word occurs at most once. */
  lemma {:induction false} DistinctOccursOnce(s: seq<Word>)
    requires DistinctWords(s)
    ensures forall x :: multiset(s)[x] <= 1
  {
    if s != [] {
      assert s == [s[0]] + s[1..];
      DistinctOccursOnce(s[1..]);
      forall k | 0 <= k < |s[1..]| ensures s[1..][k] != s[0] {
        assert s[1..][k].word == s[k + 1].word != s[0].word;
      }
    }
  }

  /** An entry that occurs at most once is found at no later index. */
  lemma OccursOnceAt(s: seq<Word>, i: nat, j: nat)
    requires i < j < |s| && multiset(s)[s[i]] <= 1
    ensures s[i] != s[j]
  {
    assert s == s[..j] + s[j..];
    assert s[..j][i] == s[i];
    assert s[j..][0] == s[j];
  }

  /** Rearranging a sequence of distinct words keeps them distinct. */
  lemma PermutationKeepsDistinct(s: seq<Word>, r: seq<Word>)
    requires multiset(r) == multiset(s) && DistinctWords(s)
    ensures DistinctWords(r)
  {
    DistinctOccursOnce(s);
    forall i, j | 0 <= i < j < |r| ensures r[i].word != r[j].word {
      OccursOnceAt(r, i, j);
      assert r[i] in multiset(s) && r[j] in multiset(s);
      var p :| 0 <= p < |s| && s[p] == r[i];
      var q :| 0 <= q < |s| && s[q] == r[j];
      assert p != q;
    }
  }

  /** Two sequences of distinct words that share no string concatenate to distinct words. */
  lemma DistinctAppend(a: seq<Word>, b: seq<Word>)
    requires DistinctWords(a) && DistinctWords(b)
    requires forall x, y :: x in a && y in b ==> x.word != y.word
    ensures DistinctWords(a + b)
  {
    forall i, j | 0 <= i < j < |a + b| ensures (a + b)[i].word != (a + b)[j].word {
      if j < |a| {
        assert (a + b)[i] == a[i] && (a + b)[j] == a[j];
      } else if i < |a| {
        assert (a + b)[i] == a[i] && (a + b)[j] == b[j - |a|];
        assert a[i] in a && b[j - |a|] in b;
      } else {
        assert (a + b)[i] == b[i - |a|] && (a + b)[j] == b[j - |a|];
      }
    }
  }
}
