/**
 * What numLeaves counts: the words which are not prefixes of any other word.
 * The fold of numLeavesRecur counts childless word nodes; in a tree without
 * dead nodes those are exactly the words that no other word extends.
 */
module LeafFacts {
  import opened Words
  import opened Ranking
  import opened Trie
  import opened QueryFacts

  /** No word of all extends x's string by one or more characters. */
  ghost predicate Unextended(x: Word, all: seq<Word>)
  {
    forall y :: y in all ==> !(x.word < y.word)
  }

  /** How many entries of ws no word of all extends. */
  ghost function CountUnextended(ws: seq<Word>, all: seq<Word>): nat
  {
    if ws == [] then 0
    else (if Unextended(ws[0], all) then 1 else 0) + CountUnextended(ws[1..], all)
  }

  lemma {:induction false} CountAppend(a: seq<Word>, b: seq<Word>, all: seq<Word>)
    ensures CountUnextended(a + b, all) == CountUnextended(a, all) + CountUnextended(b, all)
  {
    if a == [] {
      assert a + b == b;
    } else {
      assert (a + b)[0] == a[0] && (a + b)[1..] == a[1..] + b;
      CountAppend(a[1..], b, all);
    }
  }

  /** The count depends only on which entries of ws are unextended. */
  lemma {:induction false} CountSameVerdicts(ws: seq<Word>, all: seq<Word>, all': seq<Word>)
    requires forall x :: x in ws ==> (Unextended(x, all) <==> Unextended(x, all'))
    ensures CountUnextended(ws, all) == CountUnextended(ws, all')
  {
    if ws != [] {
      assert ws[0] in ws;
      CountSameVerdicts(ws[1..], all, all');
    }
  }

  /** Words below two different children are never prefixes of one another. */
  lemma OtherKidUnrelated(n: Node, soFar: string, i: nat, j: nat, x: Word, y: Word)
    requires Valid(n) && i < |n.children| && j < |n.children| && i != j
    requires x in AllWordsRecur(n.children[i].1, soFar + [n.children[i].0])
    requires y in AllWordsRecur(n.children[j].1, soFar + [n.children[j].0])
    ensures !(x.word < y.word)
  {
    StartsWithEdge(n, soFar, i, x);
    StartsWithEdge(n, soFar, j, y);
    assert x.word[|soFar|] != y.word[|soFar|];
  }

  /**
   * A word below the child at i is unextended in the whole list at n
   * exactly when it is unextended among the words below that child.
   */
  lemma KidVerdict(n: Node, soFar: string, i: nat, x: Word)
    requires Valid(n) && i < |n.children|
    requires x in AllWordsRecur(n.children[i].1, soFar + [n.children[i].0])
    ensures Unextended(x, AllWordsRecur(n, soFar))
        <==> Unextended(x, AllWordsRecur(n.children[i].1, soFar + [n.children[i].0]))
  {
    var all := AllWordsRecur(n, soFar);
    var own := AllWordsRecur(n.children[i].1, soFar + [n.children[i].0]);
    KidWordsIncluded(n, soFar, i, |n.children|);
    StartsWithEdge(n, soFar, i, x);
    forall y | y in all && !(y in own) ensures !(x.word < y.word) {
      if y in WordsOfKids(n, soFar, |n.children|) {
        var j := KidOf(n, soFar, |n.children|, y);
        OtherKidUnrelated(n, soFar, i, j, x, y);
      } else {
        assert y.word == soFar;
      }
    }
  }

  /** The words below one child count the same in the child's list as in the whole list at n. */
  lemma KidCount(n: Node, soFar: string, i: nat)
    requires Valid(n) && i < |n.children|
    ensures var below := AllWordsRecur(n.children[i].1, soFar + [n.children[i].0]);
      CountUnextended(below, AllWordsRecur(n, soFar)) == CountUnextended(below, below)
  {
    var below := AllWordsRecur(n.children[i].1, soFar + [n.children[i].0]);
    forall x | x in below ensures Unextended(x, AllWordsRecur(n, soFar)) <==> Unextended(x, below) {
      KidVerdict(n, soFar, i, x);
    }
    CountSameVerdicts(below, AllWordsRecur(n, soFar), below);
  }

  /** A word node with a live child is extended by a word of that child. */
  lemma OwnWordExtended(n: Node, soFar: string)
    requires Valid(n) && NoDeadNodes(n) && IsWord(n) && n.children != []
    ensures !Unextended(Word(soFar, n.popularity.value), AllWordsRecur(n, soFar))
  {
    var c, t := n.children[0].0, n.children[0].1;
    LiveHasWords(t, soFar + [c]);
    var y := AllWordsRecur(t, soFar + [c])[0];
    StartsWithEdge(n, soFar, 0, y);
    KidWordsIncluded(n, soFar, 0, |n.children|);
    assert y in AllWordsRecur(n, soFar);
  }

  /** A live node has no dead node below it. */
  lemma LiveNoDeadNodes(t: Node)
    requires Live(t)
    ensures NoDeadNodes(t)
  {
  }

  /**
   * numLeaves counts the words of allWords which are not prefixes of any
   * other word, in a tree whose child maps have distinct keys and whose
   * nodes below the root all end a word or lead to one.
   */
  lemma {:induction false} NumLeavesCountsUnextended(n: Node, soFar: string)
    requires Valid(n) && NoDeadNodes(n)
    ensures NumLeaves(n) == CountUnextended(AllWordsRecur(n, soFar), AllWordsRecur(n, soFar))
    decreases n, |n.children| + 1
  {
    var all := AllWordsRecur(n, soFar);
    var own := if IsWord(n) then [Word(soFar, n.popularity.value)] else [];
    var kids := WordsOfKids(n, soFar, |n.children|);
    CountAppend(own, kids, all);
    LeavesOfKidsCountUnextended(n, soFar, |n.children|);
    if n.children == [] {
      if IsWord(n) {
        assert all == own;
      }
    } else if IsWord(n) {
      OwnWordExtended(n, soFar);
    }
  }

  lemma {:induction false} LeavesOfKidsCountUnextended(n: Node, soFar: string, i: nat)
    requires Valid(n) && NoDeadNodes(n) && i <= |n.children|
    ensures LeavesOfKids(n, i) == CountUnextended(WordsOfKids(n, soFar, i), AllWordsRecur(n, soFar))
    decreases n, i
  {
    if i > 0 {
      var c, t := n.children[i - 1].0, n.children[i - 1].1;
      var below := AllWordsRecur(t, soFar + [c]);
      LeavesOfKidsCountUnextended(n, soFar, i - 1);
      CountAppend(WordsOfKids(n, soFar, i - 1), below, AllWordsRecur(n, soFar));
      KidCount(n, soFar, i - 1);
      LiveNoDeadNodes(t);
      NumLeavesCountsUnextended(t, soFar + [c]);
    }
  }

  /**
   * numLeaves: the number of words of allWords which are not prefixes of any
   * other word; allWords lists each stored word once, so this counts words,
   * not entries.
   */
  lemma NumLeavesMeaning(n: Node)
    requires Valid(n) && NoDeadNodes(n)
    ensures NumLeaves(n) == CountUnextended(AllWords(n), AllWords(n))
    ensures DistinctWords(AllWords(n))
  {
    NumLeavesCountsUnextended(n, "");
    AllWordsDistinct(n, "");
  }
}
