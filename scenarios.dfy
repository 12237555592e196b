/**
 * Small trees on which the behaviour of remove and contains can be read off
 * directly, and the height cases of the repository's unit tests.
 */
module Scenarios {
  import opened Wrappers
  import opened LinkedMap
  import opened Trie
  import AggregateFacts

  /** insert("ab") into a new tree builds the chain root -a-> node -b-> word. */
  lemma ChainAb()
    ensures InsertPath(Empty, "ab", 0) == Node(None, [('a', Node(None, [('b', Node(Some(0), []))]))])
  {
    assert "ab"[0] == 'a' && "ab"[1..] == "b" && "b"[1..] == [];
    assert InsertPath(Empty, "b", 0) == Node(None, [('b', Node(Some(0), []))]);
  }

  /** The tree after insert("ab") and then insert("a"), both with popularity 0. */
  const AbThenA: Node := InsertPath(InsertPath(Empty, "ab", 0), "a", 0)

  /**
   * remove("a") cuts the edge to "a" because that node branches only once,
   * so "ab" is lost along with "a".
   */
  lemma RemovePrefixDropsExtension()
    ensures ContainsWord(AbThenA, "a") && ContainsWord(AbThenA, "ab")
    ensures RemovePath(AbThenA, "a") == (Empty, true)
  {
    var b := Node(Some(0), []);
    var a := Node(Some(0), [('b', b)]);
    ChainAb();
    assert AbThenA == Node(None, [('a', a)]);
    assert MaxBranching(a) == 1 by {
      assert MaxBranching(b) == 0;
      assert BranchingOfKids(a, 1) == Max(BranchingOfKids(a, 0), MaxBranching(b));
    }
  }

  /**
   * remove("ax") on a tree holding only "ab" returns true and removes "ab":
   * the cut happens before the walk finds that "ax" is missing.
   */
  lemma RemoveAbsentWordDropsSibling()
    ensures !ContainsWord(InsertPath(Empty, "ab", 0), "ax")
    ensures RemovePath(InsertPath(Empty, "ab", 0), "ax") == (Empty, true)
  {
    var b := Node(Some(0), []);
    var a := Node(None, [('b', b)]);
    ChainAb();
    assert MaxBranching(a) == 1 by {
      assert MaxBranching(b) == 0;
      assert BranchingOfKids(a, 1) == Max(BranchingOfKids(a, 0), MaxBranching(b));
    }
  }

  /** insert("a") into a new tree gives a tree of two nodes. */
  lemma SingleLetterTree()
    ensures InsertPath(Empty, "a", 0) == Node(None, [('a', Node(Some(0), []))])
    ensures Size(InsertPath(Empty, "a", 0)) == 2
  {
    var one := Node(None, [('a', Node(Some(0), []))]);
    assert InsertPath(Empty, "a", 0) == one;
    assert SizeOfKids(one, 1) == SizeOfKids(one, 0) + Size(Node(Some(0), []));
  }

  /** insert of one letter below a word node without children hangs a new leaf word there. */
  lemma HangLeaf(c: char)
    ensures InsertPath(Node(Some(0), []), [c], 0) == Node(Some(0), [(c, Node(Some(0), []))])
  {
    var leaf := Node(Some(0), []);
    assert [c][0] == c && [c][1..] == [];
    assert Child(leaf, c) == Empty;
    assert InsertPath(Empty, [], 0) == leaf;
    assert Put(leaf.children, c, leaf) == [(c, leaf)];
  }

  /** insert("ab") on the tree holding "a" hangs "b" below the node of "a". */
  lemma ExtendSingleLetter()
    ensures InsertPath(InsertPath(Empty, "a", 0), "ab", 0) == Node(None, [('a', Node(Some(0), [('b', Node(Some(0), []))]))])
  {
    var leaf := Node(Some(0), []);
    var one := Node(None, [('a', leaf)]);
    var two := Node(Some(0), [('b', leaf)]);
    SingleLetterTree();
    assert "ab"[0] == 'a' && "ab"[1..] == "b";
    assert Child(one, 'a') == leaf;
    assert InsertPath(leaf, "b", 0) == two by {
      HangLeaf('b');
    }
    assert Put(one.children, 'a', two) == [('a', two)];
  }

  /**
   * insert("ab") then remove("ab") on a tree holding only "a" does not give
   * back the tree's size: "a" is removed as well.
   */
  lemma InsertRemoveChangesSize()
    ensures Size(InsertPath(Empty, "a", 0)) == 2
    ensures RemovePath(InsertPath(InsertPath(Empty, "a", 0), "ab", 0), "ab") == (Empty, true)
    ensures Size(Empty) == 1
  {
    var b := Node(Some(0), []);
    var a := Node(Some(0), [('b', b)]);
    SingleLetterTree();
    ExtendSingleLetter();
    assert MaxBranching(a) == 1 by {
      assert MaxBranching(b) == 0;
      assert BranchingOfKids(a, 1) == Max(BranchingOfKids(a, 0), MaxBranching(b));
    }
  }

  /** contains does not fold case: after insert("A") the tree holds "a" but not "A". */
  lemma ContainsIsCaseSensitive()
    ensures ContainsWord(InsertPath(Empty, Lower("A"), 0), "a")
    ensures !ContainsWord(InsertPath(Empty, Lower("A"), 0), "A")
  {
    assert Lower("A") == "a";
    assert InsertPath(Empty, "a", 0) == Node(None, [('a', Node(Some(0), []))]);
  }

  /**
   * heightOfRootShouldBeZero and heightOfWordShouldBeWordLength: a new tree
   * has height 0, and after insert("word", 0) its height is 4.
   */
  lemma HeightOfNewTreeAndWord(n: Node)
    requires n.popularity.None? && n.children == []
    ensures Height(n) == 0
    ensures Height(InsertPath(n, Lower("word"), 0)) == 4
  {
    assert Lower("word") == "word";
    AggregateFacts.InsertHeight(n, "word", 0);
  }
}
