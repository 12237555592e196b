/**
 * What the whole-tree aggregates measure: maximumBranching is the largest
 * child count of any node, height the length of a longest path,
 * longestWord spells a longest path (the earliest child winning ties), and
 * numLeaves and size bound the number of words.
 */
module AggregateFacts {
  import opened Wrappers
  import opened LinkedMap
  import opened Trie
  import opened Traversal
  import opened TrieWalk
  import InsertFacts

  /** Each child's branching is at most the fold over the first i children, for the children before i. */
  lemma {:induction false} KidBranchingBound(n: Node, k: nat, i: nat)
    requires k < i <= |n.children|
    ensures MaxBranching(n.children[k].1) <= BranchingOfKids(n, i)
    decreases i
  {
    if k < i - 1 {
      KidBranchingBound(n, k, i - 1);
    }
  }

  /** Each child's height is at most the fold over the first i children, for the children before i. */
  lemma {:induction false} KidHeightBound(n: Node, k: nat, i: nat)
    requires k < i <= |n.children|
    ensures Height(n.children[k].1) <= HeightOfKids(n, i)
    decreases i
  {
    if k < i - 1 {
      KidHeightBound(n, k, i - 1);
    }
  }

  /** No node reached from n has more children than maximumBranching(n). */
  lemma {:induction false} BranchingBound(n: Node, u: string)
    requires NodeAt(n, u).Some?
    ensures |NodeAt(n, u).value.children| <= MaxBranching(n)
    decreases |u|
  {
    if u != [] {
      var k := IndexOf(n.children, u[0]).value;
      BranchingBound(n.children[k].1, u[1..]);
      KidBranchingBound(n, k, |n.children|);
    }
  }

  /** No path from n is longer than height(n). */
  lemma {:induction false} HeightBound(n: Node, u: string)
    requires NodeAt(n, u).Some?
    ensures |u| <= Height(n)
    decreases |u|
  {
    if u != [] {
      var k := IndexOf(n.children, u[0]).value;
      HeightBound(n.children[k].1, u[1..]);
      KidHeightBound(n, k, |n.children|);
    }
  }

  /** The fold over the first i > 0 children takes its value at one of them. */
  lemma {:induction false} BranchingOfKidsAttained(n: Node, i: nat)
    requires 0 < i <= |n.children|
    ensures exists k :: 0 <= k < i && BranchingOfKids(n, i) == MaxBranching(n.children[k].1)
    decreases i
  {
    if i > 1 && BranchingOfKids(n, i - 1) > MaxBranching(n.children[i - 1].1) {
      BranchingOfKidsAttained(n, i - 1);
    } else {
      assert BranchingOfKids(n, i) == MaxBranching(n.children[i - 1].1);
    }
  }

  lemma {:induction false} HeightOfKidsAttained(n: Node, i: nat)
    requires 0 < i <= |n.children|
    ensures exists k :: 0 <= k < i && HeightOfKids(n, i) == Height(n.children[k].1)
    decreases i
  {
    if i > 1 && HeightOfKids(n, i - 1) > Height(n.children[i - 1].1) {
      HeightOfKidsAttained(n, i - 1);
    } else {
      assert HeightOfKids(n, i) == Height(n.children[i - 1].1);
    }
  }

  /** In a valid tree some node has exactly maximumBranching children. */
  lemma {:induction false} BranchingAttained(n: Node)
    requires Valid(n)
    ensures exists u :: NodeAt(n, u).Some? && |NodeAt(n, u).value.children| == MaxBranching(n)
    decreases n
  {
    if |n.children| >= BranchingOfKids(n, |n.children|) {
      assert NodeAt(n, []) == Some(n);
    } else {
      BranchingOfKidsAttained(n, |n.children|);
      var k :| 0 <= k < |n.children| && BranchingOfKids(n, |n.children|) == MaxBranching(n.children[k].1);
      var c, t := n.children[k].0, n.children[k].1;
      BranchingAttained(t);
      var u :| NodeAt(t, u).Some? && |NodeAt(t, u).value.children| == MaxBranching(t);
      GetEntry(n.children, k);
      NodeAtCons(n, c, u);
    }
  }

  /** In a valid tree some path is exactly height long. */
  lemma {:induction false} HeightAttained(n: Node)
    requires Valid(n)
    ensures exists u :: NodeAt(n, u).Some? && |u| == Height(n)
    decreases n
  {
    if n.children == [] {
      assert NodeAt(n, []) == Some(n);
    } else {
      HeightOfKidsAttained(n, |n.children|);
      var k :| 0 <= k < |n.children| && HeightOfKids(n, |n.children|) == Height(n.children[k].1);
      var c, t := n.children[k].0, n.children[k].1;
      HeightAttained(t);
      var u :| NodeAt(t, u).Some? && |u| == Height(t);
      GetEntry(n.children, k);
      NodeAtCons(n, c, u);
    }
  }

  /** The branch longestWordRecur proposes for the k-th child, starting with that child's character. */
  function Candidate(n: Node, k: nat): string
    requires k < |n.children|
  {
    LongestWordRecur(n.children[k].1, [n.children[k].0])
  }

  /** Candidate k is a longest one among the first i, and strictly longer than every earlier one. */
  ghost predicate FirstLongest(n: Node, i: nat, k: nat)
    requires i <= |n.children|
  {
    && k < i
    && (forall j :: 0 <= j < i ==> |Candidate(n, j)| <= |Candidate(n, k)|)
    && (forall j :: 0 <= j < k ==> |Candidate(n, j)| < |Candidate(n, k)|)
  }

  /**
   * Among the first i > 0 children, longestWordRecur keeps the longest
   * candidate, and of several equally long ones the earliest.
   */
  lemma {:induction false} LongestAmongFirstLongest(n: Node, i: nat)
    requires 0 < i <= |n.children|
    ensures exists k :: FirstLongest(n, i, k) && LongestAmong(n, i) == Candidate(n, k)
    decreases i
  {
    if i == 1 {
      assert FirstLongest(n, 1, 0) && LongestAmong(n, 1) == Candidate(n, 0);
    } else {
      LongestAmongFirstLongest(n, i - 1);
      var k :| FirstLongest(n, i - 1, k) && LongestAmong(n, i - 1) == Candidate(n, k);
      var current := Candidate(n, i - 1);
      assert LongestAmong(n, i) == if |current| > |LongestAmong(n, i - 1)| then current else LongestAmong(n, i - 1);
      if |current| > |Candidate(n, k)| {
        assert FirstLongest(n, i, i - 1);
      } else {
        assert FirstLongest(n, i, k);
      }
    }
  }

  /** longestWordRecur adds to prefix a string of exactly height characters. */
  lemma {:induction false} LongestWordLength(n: Node, prefix: string)
    ensures |LongestWordRecur(n, prefix)| == |prefix| + Height(n)
    decreases n, |n.children| + 1
  {
    LongestAmongLength(n, |n.children|);
  }

  lemma {:induction false} LongestAmongLength(n: Node, i: nat)
    requires i <= |n.children|
    ensures |LongestAmong(n, i)| == if i == 0 then 0 else 1 + HeightOfKids(n, i)
    decreases n, i
  {
    if i > 0 {
      LongestAmongLength(n, i - 1);
      LongestWordLength(n.children[i - 1].1, [n.children[i - 1].0]);
    }
  }

  /** In a valid tree longestWord spells a path from the root to a node without children. */
  lemma {:induction false} LongestWordIsBranch(n: Node)
    requires Valid(n)
    ensures NodeAt(n, LongestAmong(n, |n.children|)).Some?
    ensures NodeAt(n, LongestAmong(n, |n.children|)).value.children == []
    decreases n
  {
    if n.children != [] {
      LongestAmongFirstLongest(n, |n.children|);
      var k :| 0 <= k < |n.children| && LongestAmong(n, |n.children|) == Candidate(n, k);
      var c, t := n.children[k].0, n.children[k].1;
      LongestWordIsBranch(t);
      GetEntry(n.children, k);
      NodeAtCons(n, c, LongestAmong(t, |t.children|));
    }
  }

  /** longestWord: as long as the height, and spelling a path to a node without children. */
  lemma LongestWordFacts(n: Node)
    requires Valid(n)
    ensures |LongestWord(n)| == Height(n)
    ensures NodeAt(n, LongestWord(n)).Some? && NodeAt(n, LongestWord(n)).value.children == []
  {
    LongestWordLength(n, "");
    LongestWordIsBranch(n);
    assert LongestWord(n) == LongestAmong(n, |n.children|);
  }

  /** Every leaf counted by numLeaves ends a distinct listed word, so there are no more leaves than words. */
  lemma {:induction false} LeavesAtMostWords(n: Node, soFar: string)
    ensures NumLeaves(n) <= |AllWordsRecur(n, soFar)|
    decreases n, |n.children| + 1
  {
    LeavesOfKidsAtMostWords(n, soFar, |n.children|);
  }

  lemma {:induction false} LeavesOfKidsAtMostWords(n: Node, soFar: string, i: nat)
    requires i <= |n.children|
    ensures LeavesOfKids(n, i) <= |WordsOfKids(n, soFar, i)|
    decreases n, i
  {
    if i > 0 {
      LeavesOfKidsAtMostWords(n, soFar, i - 1);
      LeavesAtMostWords(n.children[i - 1].1, soFar + [n.children[i - 1].0]);
    }
  }

  /** A live subtree has at least one leaf. */
  lemma {:induction false} LiveHasLeaf(n: Node)
    requires Live(n)
    ensures NumLeaves(n) >= 1
    decreases n, |n.children| + 1
  {
    if n.children != [] {
      LiveHasLeaf(n.children[0].1);
      LeavesOfKidsFirst(n, |n.children|);
    }
  }

  /** The leaves below the first child are among the leaves of the first i children. */
  lemma {:induction false} LeavesOfKidsFirst(n: Node, i: nat)
    requires 0 < i <= |n.children|
    ensures NumLeaves(n.children[0].1) <= LeavesOfKids(n, i)
    decreases i
  {
    if i > 1 {
      LeavesOfKidsFirst(n, i - 1);
    }
  }

  /** A tree has at least as many nodes as words. */
  lemma {:induction false} WordsAtMostNodes(n: Node, soFar: string)
    ensures |AllWordsRecur(n, soFar)| <= Size(n)
    decreases n, |n.children| + 1
  {
    WordsOfKidsAtMostNodes(n, soFar, |n.children|);
  }

  lemma {:induction false} WordsOfKidsAtMostNodes(n: Node, soFar: string, i: nat)
    requires i <= |n.children|
    ensures |WordsOfKids(n, soFar, i)| <= SizeOfKids(n, i)
    decreases n, i
  {
    if i > 0 {
      WordsOfKidsAtMostNodes(n, soFar, i - 1);
      WordsAtMostNodes(n.children[i - 1].1, soFar + [n.children[i - 1].0]);
    }
  }

  /** A single word inserted into a new tree gives a chain of |w| + 1 nodes and height |w|. */
  lemma {:induction false} SingleWordTree(w: string, p: int)
    ensures Size(InsertPath(Empty, w, p)) == |w| + 1
    ensures Height(InsertPath(Empty, w, p)) == |w|
    decreases |w|
  {
    InsertFacts.InsertSize(Empty, w, p);
    if w != [] {
      SingleWordTree(w[1..], p);
      var t := InsertPath(Empty, w, p);
      assert HeightOfKids(t, 1) == Max(HeightOfKids(t, 0), Height(t.children[0].1));
    }
  }

  /** Raising one tree of a queue to height Max(old, h) raises the queue's height to Max(old, h). */
  lemma QueueHeightRaise(q: seq<Node>, j: nat, v: Node, h: int)
    requires j < |q| && Height(v) == Max(Height(q[j]), h)
    ensures QueueHeight(q[j := v]) == Max(QueueHeight(q), h)
  {
    var front, back := q[..j], q[j + 1..];
    SplitAt(q, j, v);
    QueueAround(front, q[j], back);
    QueueAround(front, v, back);
  }

  /** Raising an existing child to height Max(old, h) raises the node to Max(old, h + 1). */
  lemma RaiseChildHeight(n: Node, c: char, t: Node, h: int)
    requires Get(n.children, c).Some? && Height(t) == Max(Height(Get(n.children, c).value), h)
    ensures Height(n.(children := Put(n.children, c, t))) == Max(Height(n), h + 1)
  {
    var n' := n.(children := Put(n.children, c, t));
    var j := IndexOf(n.children, c).value;
    var q := Kids(n);
    PutChildKids(n, c, t);
    assert Height(n) == 1 + QueueHeight(q) by {
      NodeSize(n);
    }
    assert Height(n') == 1 + QueueHeight(q[j := t]) by {
      NodeSize(n');
    }
    QueueHeightRaise(q, j, t, h);
  }

  /** Appending a child makes the node at least one taller than that child. */
  lemma AppendChildHeight(n: Node, c: char, t: Node)
    ensures Height(n.(children := n.children + [(c, t)])) == Max(Height(n), Height(t) + 1)
  {
    var n' := n.(children := n.children + [(c, t)]);
    var q := Kids(n);
    assert Height(n') == 1 + QueueHeight(q + [t]) by {
      NodeSize(n');
      assert Kids(n') == q + [t];
    }
    assert Height(n) == QueueHeight(q) + (if n.children == [] then 0 else 1) by {
      NodeSize(n);
    }
    QueueSnoc(q, t);
  }

  /** After insert(w), the height is the larger of the old height and |w|. */
  lemma {:induction false} InsertHeight(n: Node, w: string, p: int)
    ensures Height(InsertPath(n, w, p)) == Max(Height(n), |w|)
    decreases |w|
  {
    if w == [] {
      SameChildren(n, InsertPath(n, w, p));
    } else {
      var t := Child(n, w[0]);
      InsertHeight(t, w[1..], p);
      if Get(n.children, w[0]).Some? {
        RaiseChildHeight(n, w[0], InsertPath(t, w[1..], p), |w| - 1);
      } else {
        AppendChildHeight(n, w[0], InsertPath(t, w[1..], p));
      }
    }
  }
}
