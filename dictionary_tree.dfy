/**
 * DictionaryTree: the root node of the tree, whose methods walk down with a
 * current node and an index into the word as the source's loops do.
 *
 * The source changes the nodes on the path in place. Here the nodes are
 * values, so each walk records the nodes it passes (path[k] is the node
 * reached after k characters) and a final loop writes the changed node back
 * into its ancestors, deepest first.
 */
module Dictionary {
  import opened Wrappers
  import opened LinkedMap
  import opened Words
  import opened Ranking
  import opened Trie
  import opened Traversal
  import QueryFacts
  import InsertFacts
  import RemoveFacts
  import LeafFacts
  import CaseFacts

  class DictionaryTree {
    var children: seq<(char, Node)>
    var popularity: Option<int>

    /** The whole tree rooted here. */
    function Tree(): Node
      reads this
    {
      Node(popularity, children)
    }

    /**
     * What every tree built by the constructor, insert and remove satisfies:
     * each child map has distinct keys, every node below the root ends a
     * word or leads to one, and no edge is a capital letter.
     */
    ghost predicate Invariant()
      reads this
    {
      Trie.Valid(Tree()) && NoDeadNodes(Tree()) && NoCapitals(Tree())
    }

    constructor ()
      ensures Tree() == Empty
      ensures Invariant()
    {
      children := [];
      popularity := None;
    }

    /** insert(word): insert with popularity 0. */
    method InsertDefault(word: string)
      requires Invariant()
      modifies this
      ensures Tree() == InsertPath(old(Tree()), Lower(word), 0)
      ensures Invariant()
    {
      Insert(word, 0);
    }

    /**
     * insert(word, p): follow the existing edges of the lower-cased word,
     * add a new node for each remaining character, then setWord(p) at the
     * last node.
     */
    method Insert(word: string, p: int)
      requires Invariant()
      modifies this
      ensures Tree() == InsertPath(old(Tree()), Lower(word), p)
      ensures Invariant()
    {
      var w := Lower(word);
      var path := WalkInsertion(Tree(), w);
      var current := WriteBackInsertion(path, w, p);
      children, popularity := current.children, current.popularity;
    }

    /**
     * remove(word): walk the lower-cased word; cut the edge to the next
     * child as soon as that child's subtree branches at most once; give
     * false at a missing edge; otherwise clear the end node's popularity.
     */
    method Remove(word: string) returns (removed: bool)
      requires Invariant()
      modifies this
      ensures (Tree(), removed) == RemovePath(old(Tree()), Lower(word))
      ensures !ContainsWord(Tree(), word) && !ContainsWord(Tree(), Lower(word))
      ensures Invariant()
    {
      CaseFacts.RemoveClearsRawWord(Tree(), word);
      var w := Lower(word);
      var path, i, cut := WalkRemoval(Tree(), w);
      if cut {
        assert w[i..][0] == w[i] && w[i..][1..] == w[i + 1..];
        var current := path[i].(children := RemoveKey(path[i].children, w[i]));
        current := WriteBackRemoval(path, w, i, current);
        children, popularity := current.children, current.popularity;
        return true;
      } else if i < |w| {
        // No edge for w[i]: the tree is left as it was.
        RemoveStopsAtMissingEdge(path, w, i);
        return false;
      }
      assert w[i..] == [];
      var current := path[i].(popularity := None);
      current := WriteBackRemoval(path, w, i, current);
      children, popularity := current.children, current.popularity;
      removed := true;
    }

    /** contains(word): follow the word as given, without lower-casing it. */
    method Contains(word: string) returns (found: bool)
      ensures found == ContainsWord(Tree(), word)
    {
      var current := Tree();
      var i := 0;
      while i < |word|
        invariant 0 <= i <= |word|
        invariant NodeAt(Tree(), word) == NodeAt(current, word[i..])
      {
        var c := word[i];
        assert word[i..][0] == c && word[i..][1..] == word[i + 1..];
        if ContainsKey(current.children, c) {
          current := Get(current.children, c).value;
          i := i + 1;
        } else {
          return false;
        }
      }
      assert word[i..] == [];
      found := IsWord(current);
    }

    /**
     * predict(prefix, n): walk to the lower-cased prefix, collect the words
     * below it in preorder, sort them by popularity and keep the first n.
     */
    method Predict(prefix: string, n: int) returns (r: Result<seq<string>, Error>)
      ensures r == PredictPath(Tree(), Lower(prefix), n)
    {
      var u := Lower(prefix);
      var current := Tree();
      var i := 0;
      while i < |u|
        invariant 0 <= i <= |u|
        invariant NodeAt(Tree(), u) == NodeAt(current, u[i..])
      {
        var c := u[i];
        assert u[i..][0] == c && u[i..][1..] == u[i + 1..];
        if ContainsKey(current.children, c) {
          current := Get(current.children, c).value;
          i := i + 1;
        } else {
          return Success([]);
        }
      }
      assert u[i..] == [];
      var predictions := CollectWords(current, u, []);
      assert predictions == AllWordsRecur(current, u);
      predictions := SortByPopularity(predictions);
      var strings := WordsToStrings(predictions);
      assert NodeAt(Tree(), u) == Some(current);
      assert 0 <= n <= |strings| ==> strings[..n] == WordStrings(predictions[..n]);
      if n < 0 {
        r := Failure(IllegalArgument);
      } else if n > |strings| {
        r := Failure(IndexOutOfBounds);
      } else {
        r := Success(strings[..n]);
      }
    }

    /** predict(prefix): the first of predict(prefix, 1), if there is one. */
    method PredictOne(prefix: string) returns (r: Result<Option<string>, Error>)
      ensures r == PredictOnePath(Tree(), Lower(prefix))
    {
      var p := Predict(prefix, 1);
      match p
      case Failure(e) => r := Failure(e);
      case Success(words) => r := Success(if words == [] then None else Some(words[0]));
    }

    method MaximumBranching() returns (largest: nat)
      ensures largest == MaxBranching(Tree())
    {
      largest := MaximumBranchingBfs(Tree());
    }

    method Height() returns (depth: int)
      ensures depth == Trie.Height(Tree())
    {
      depth := HeightBfs(Tree());
    }

    /** numLeaves: the number of stored words that are not prefixes of any other stored word. */
    method NumLeaves() returns (n: nat)
      requires Invariant()
      ensures n == Trie.NumLeaves(Tree())
      ensures n == LeafFacts.CountUnextended(Trie.AllWords(Tree()), Trie.AllWords(Tree()))
    {
      n := CountLeaves(Tree());
      LeafFacts.NumLeavesMeaning(Tree());
    }

    method Size() returns (size: nat)
      ensures size == Trie.Size(Tree())
    {
      size := CountNodes(Tree());
    }

    method LongestWord() returns (s: string)
      ensures s == Trie.LongestWord(Tree())
    {
      s := LongestBranch(Tree(), "");
    }

    /** allWords: every stored word, in preorder. */
    method AllWords() returns (words: seq<string>)
      requires Invariant()
      ensures words == WordStrings(Trie.AllWords(Tree()))
      ensures forall i, j :: 0 <= i < j < |words| ==> words[i] != words[j]
    {
      var ws := CollectWords(Tree(), "", []);
      words := WordsToStrings(ws);
      QueryFacts.AllWordsDistinct(Tree(), "");
    }
  }

  /** The walk of remove passed the first i edges of w without pruning. */
  ghost predicate WalkedWithoutPruning(path: seq<Node>, w: string, i: nat)
  {
    && i <= |w| && |path| == i + 1
    && (forall k :: 0 <= k < i ==> Get(path[k].children, w[k]) == Some(path[k + 1]))
    && (forall k :: 1 <= k <= i ==> MaxBranching(path[k]) > 1)
  }

  /**
   * The walk of remove: follow the edges of w while the next child's
   * subtree branches more than once. It stops with cut at the first child
   * whose subtree branches at most once, without cut at a missing edge or
   * at the end of w.
   */
  method WalkRemoval(root: Node, w: string) returns (path: seq<Node>, i: nat, cut: bool)
    ensures WalkedWithoutPruning(path, w, i) && path[0] == root
    ensures cut ==>
      i < |w| && ContainsKey(path[i].children, w[i]) && MaxBranching(Get(path[i].children, w[i]).value) <= 1
    ensures !cut && i < |w| ==> !ContainsKey(path[i].children, w[i])
  {
    var current := root;
    path, i, cut := [current], 0, false;
    while i < |w|
      invariant WalkedWithoutPruning(path, w, i)
      invariant path[0] == root && current == path[i]
    {
      var c := w[i];
      if ContainsKey(current.children, c) {
        var nextTree := Get(current.children, c).value;
        var branching := MaximumBranchingBfs(nextTree);
        if branching <= 1 {
          cut := true;
          return;
        }
        current := nextTree;
        path := path + [current];
        i := i + 1;
      } else {
        return;
      }
    }
  }

  /** A missing edge after a walk without pruning makes remove give false and change nothing. */
  lemma RemoveStopsAtMissingEdge(path: seq<Node>, w: string, i: nat)
    requires WalkedWithoutPruning(path, w, i)
    requires i < |w| && Get(path[i].children, w[i]).None?
    ensures RemovePath(path[0], w) == (path[0], false)
  {
    var k := i;
    assert RemovePath(path[k], w[k..]) == (path[k], false);
    while k > 0
      invariant 0 <= k <= i
      invariant RemovePath(path[k], w[k..]) == (path[k], false)
    {
      k := k - 1;
      assert w[k..][0] == w[k] && w[k..][1..] == w[k + 1..];
    }
    assert w[0..] == w;
  }

  /**
   * The walk of insert: follow the existing edges of w, then add a new node
   * for each remaining character; path[k] is the node reached after k
   * characters.
   */
  method WalkInsertion(root: Node, w: string) returns (path: seq<Node>)
    ensures |path| == |w| + 1 && path[0] == root
    ensures forall k :: 0 <= k < |w| ==> Child(path[k], w[k]) == path[k + 1]
  {
    var current := root;
    path := [current];
    var i := 0;
    while i < |w|
      invariant 0 <= i <= |w| && |path| == i + 1
      invariant path[0] == root && current == path[i]
      invariant forall k :: 0 <= k < i ==> Child(path[k], w[k]) == path[k + 1]
    {
      var c := w[i];
      if ContainsKey(current.children, c) {
        current := Get(current.children, c).value;
        path := path + [current];
        i := i + 1;
      } else {
        break;
      }
    }
    while i < |w|
      invariant 0 <= i <= |w| && |path| == i + 1
      invariant path[0] == root && current == path[i]
      invariant forall k :: 0 <= k < i ==> Child(path[k], w[k]) == path[k + 1]
      invariant i < |w| ==> !ContainsKey(current.children, w[i])
    {
      var newTree := Empty;
      current := newTree;
      path := path + [current];
      i := i + 1;
    }
  }

  /**
   * Applies setWord at the last node of insert's walk and puts each changed
   * node back into its parent, deepest first.
   */
  method WriteBackInsertion(path: seq<Node>, w: string, p: int) returns (root: Node)
    requires |path| == |w| + 1
    requires forall k :: 0 <= k < |w| ==> Child(path[k], w[k]) == path[k + 1]
    requires Trie.Valid(path[0]) && NoDeadNodes(path[0]) && NoCapitals(path[0]) && LowerCase(w)
    ensures root == InsertPath(path[0], w, p)
    ensures Trie.Valid(root) && NoDeadNodes(root) && NoCapitals(root)
  {
    root := path[|w|].(popularity := SetWord(path[|w|].popularity, p).0);
    var k := |w|;
    assert w[k..] == [];
    while k > 0
      invariant 0 <= k <= |w|
      invariant root == InsertPath(path[k], w[k..], p)
    {
      k := k - 1;
      assert w[k..][0] == w[k] && w[k..][1..] == w[k + 1..];
      root := path[k].(children := Put(path[k].children, w[k], root));
    }
    assert w[0..] == w;
    InsertFacts.InsertPreservesValid(path[0], w, p);
    InsertFacts.InsertPreservesNoDeadNodes(path[0], w, p);
    CaseFacts.InsertKeepsNoCapitals(path[0], w, p);
  }

  /** Puts the changed node at the end of the walk back into its ancestors, deepest first. */
  method WriteBackRemoval(path: seq<Node>, w: string, i: nat, changed: Node) returns (root: Node)
    requires WalkedWithoutPruning(path, w, i)
    requires (changed, true) == RemovePath(path[i], w[i..])
    requires Trie.Valid(path[0]) && NoDeadNodes(path[0]) && NoCapitals(path[0])
    ensures (root, true) == RemovePath(path[0], w)
    ensures Trie.Valid(root) && NoDeadNodes(root) && NoCapitals(root)
  {
    root := changed;
    var k := i;
    while k > 0
      invariant 0 <= k <= i
      invariant (root, true) == RemovePath(path[k], w[k..])
    {
      k := k - 1;
      assert w[k..][0] == w[k] && w[k..][1..] == w[k + 1..];
      root := path[k].(children := Put(path[k].children, w[k], root));
    }
    assert w[0..] == w;
    RemoveFacts.RemovePreservesValid(path[0], w);
    RemoveFacts.RemovePreservesNoDeadNodes(path[0], w);
    CaseFacts.RemoveKeepsNoCapitals(path[0], w);
  }
}
