/**
 * The traversals the source writes as loops: the two breadth-first searches
 * over a queue (maximumBranching, height), allWordsRecur appending to an
 * output list, and wordToString. Each is proved equal to the recursive
 * definition in Trie.
 */
module Traversal {
  import opened Words
  import opened Trie

  /** The child nodes of n, in insertion order (children.values()). */
  function Kids(n: Node): (r: seq<Node>)
    ensures |r| == |n.children|
    ensures forall i :: 0 <= i < |r| ==> r[i] == n.children[i].1
  {
    seq(|n.children|, i requires 0 <= i < |n.children| => n.children[i].1)
  }

  /** The nodes of all the trees in a queue. */
  function QueueSize(q: seq<Node>): nat
  {
    if q == [] then 0 else QueueSize(q[..|q| - 1]) + Size(q[|q| - 1])
  }

  /** The largest branching in any tree of a queue (0 for none). */
  function QueueBranching(q: seq<Node>): nat
  {
    if q == [] then 0 else Max(QueueBranching(q[..|q| - 1]), MaxBranching(q[|q| - 1]))
  }

  /** The largest height of any tree in a queue (0 for none). */
  function QueueHeight(q: seq<Node>): nat
  {
    if q == [] then 0 else Max(QueueHeight(q[..|q| - 1]), Height(q[|q| - 1]))
  }

  /** The children of every node of a level, level by level in order. */
  function NextLevel(q: seq<Node>): seq<Node>
  {
    if q == [] then [] else NextLevel(q[..|q| - 1]) + Kids(q[|q| - 1])
  }

  lemma {:induction false} QueueSizeAppend(a: seq<Node>, b: seq<Node>)
    ensures QueueSize(a + b) == QueueSize(a) + QueueSize(b)
    decreases |b|
  {
    if b == [] {
      assert a + b == a;
    } else {
      assert (a + b)[..|a + b| - 1] == a + b[..|b| - 1];
      QueueSizeAppend(a, b[..|b| - 1]);
    }
  }

  lemma {:induction false} QueueBranchingAppend(a: seq<Node>, b: seq<Node>)
    ensures QueueBranching(a + b) == Max(QueueBranching(a), QueueBranching(b))
    decreases |b|
  {
    if b == [] {
      assert a + b == a;
    } else {
      assert (a + b)[..|a + b| - 1] == a + b[..|b| - 1];
      QueueBranchingAppend(a, b[..|b| - 1]);
    }
  }

  lemma {:induction false} QueueHeightAppend(a: seq<Node>, b: seq<Node>)
    ensures QueueHeight(a + b) == Max(QueueHeight(a), QueueHeight(b))
    decreases |b|
  {
    if b == [] {
      assert a + b == a;
    } else {
      assert (a + b)[..|a + b| - 1] == a + b[..|b| - 1];
      QueueHeightAppend(a, b[..|b| - 1]);
    }
  }

  /** Adding one tree at the back of a queue. */
  lemma QueueSnoc(q: seq<Node>, x: Node)
    ensures QueueSize(q + [x]) == QueueSize(q) + Size(x)
    ensures QueueBranching(q + [x]) == Max(QueueBranching(q), MaxBranching(x))
    ensures QueueHeight(q + [x]) == Max(QueueHeight(q), Height(x))
  {
    assert (q + [x])[..|q|] == q;
  }

  /** A sequence split around its j-th element, before and after replacing it. */
  lemma SplitAt<T>(q: seq<T>, j: nat, v: T)
    requires j < |q|
    ensures q == q[..j] + [q[j]] + q[j + 1..]
    ensures q[j := v] == q[..j] + [v] + q[j + 1..]
  {
  }

  /** A queue split around one of its trees. */
  lemma QueueAround(front: seq<Node>, x: Node, back: seq<Node>)
    ensures QueueSize(front + [x] + back) == QueueSize(front) + Size(x) + QueueSize(back)
    ensures QueueHeight(front + [x] + back) == Max(Max(QueueHeight(front), Height(x)), QueueHeight(back))
  {
    QueueSnoc(front, x);
    QueueSizeAppend(front + [x], back);
    QueueHeightAppend(front + [x], back);
  }

  /** The folds over the first i children are the queue folds over those children. */
  lemma {:induction false} KidsFolds(n: Node, i: nat)
    requires i <= |n.children|
    ensures SizeOfKids(n, i) == QueueSize(Kids(n)[..i])
    ensures BranchingOfKids(n, i) == QueueBranching(Kids(n)[..i])
    ensures HeightOfKids(n, i) == QueueHeight(Kids(n)[..i])
  {
    if i > 0 {
      KidsFolds(n, i - 1);
      assert Kids(n)[..i][..i - 1] == Kids(n)[..i - 1];
    }
  }

  /** A node's tree counts one node more than the trees of its children. */
  lemma NodeSize(n: Node)
    ensures Size(n) == 1 + QueueSize(Kids(n))
    ensures MaxBranching(n) == Max(|n.children|, QueueBranching(Kids(n)))
    ensures Height(n) == if n.children == [] then 0 else 1 + QueueHeight(Kids(n))
  {
    KidsFolds(n, |n.children|);
    assert Kids(n)[..|n.children|] == Kids(n);
  }

  lemma {:induction false} QueueFront(x: Node, rest: seq<Node>)
    ensures QueueSize([x] + rest) == Size(x) + QueueSize(rest)
    ensures QueueBranching([x] + rest) == Max(MaxBranching(x), QueueBranching(rest))
  {
    QueueSizeAppend([x], rest);
    QueueBranchingAppend([x], rest);
    assert [x][..0] == [];
  }

  /**
   * One level further down: the queue of the next level has exactly the
   * nodes of this level's trees minus the level itself, and its height is
   * one less unless it is empty.
   */
  lemma {:induction false} NextLevelFacts(q: seq<Node>)
    ensures QueueSize(NextLevel(q)) + |q| == QueueSize(q)
    ensures NextLevel(q) == [] ==> QueueHeight(q) == 0
    ensures NextLevel(q) != [] ==> QueueHeight(q) == 1 + QueueHeight(NextLevel(q))
  {
    if q != [] {
      var init, last := q[..|q| - 1], q[|q| - 1];
      NextLevelFacts(init);
      QueueSizeAppend(NextLevel(init), Kids(last));
      QueueHeightAppend(NextLevel(init), Kids(last));
      NodeSize(last);
      if Kids(last) == [] {
        assert last.children == [];
      }
    }
  }

  /**
   * Taking a tree off the front of a queue and enqueueing its children keeps
   * the largest branching once the tree's own child count is counted, and
   * shrinks the queue by one node.
   */
  lemma BfsStep(current: Node, rest: seq<Node>)
    ensures Max(|current.children|, QueueBranching(rest + Kids(current)))
         == QueueBranching([current] + rest)
    ensures QueueSize(rest + Kids(current)) < QueueSize([current] + rest)
  {
    QueueFront(current, rest);
    NodeSize(current);
    QueueBranchingAppend(rest, Kids(current));
    QueueSizeAppend(rest, Kids(current));
  }

  /** The inner loop of both searches: adds the children of current to the back of the queue. */
  method EnqueueChildren(bfs: seq<Node>, current: Node) returns (r: seq<Node>)
    ensures r == bfs + Kids(current)
  {
    r := bfs;
    var j := 0;
    while j < |current.children|
      invariant 0 <= j <= |current.children|
      invariant r == bfs + Kids(current)[..j]
    {
      assert Kids(current)[..j + 1] == Kids(current)[..j] + [current.children[j].1];
      r := r + [current.children[j].1];
      j := j + 1;
    }
    assert Kids(current)[..j] == Kids(current);
  }

  /** maximumBranching: a breadth-first search keeping the largest child count seen. */
  method MaximumBranchingBfs(t: Node) returns (largest: nat)
    ensures largest == MaxBranching(t)
  {
    var bfs := [t];
    largest := |t.children|;
    QueueSnoc([], t);
    assert [] + [t] == [t];
    while bfs != []
      invariant Max(largest, QueueBranching(bfs)) == MaxBranching(t)
      decreases QueueSize(bfs)
    {
      var current := bfs[0];
      var rest := bfs[1..];
      assert bfs == [current] + rest;
      BfsStep(current, rest);
      if |current.children| > largest {
        largest := |current.children|;
      }
      bfs := EnqueueChildren(rest, current);
    }
  }

  /**
   * Within a level, taking the next tree off the front and enqueueing its
   * children moves the queue on by one tree of the level.
   */
  lemma LevelStep(level: seq<Node>, i: nat)
    requires i < |level|
    ensures var bfs := level[i..] + NextLevel(level[..i]);
      && bfs[0] == level[i]
      && bfs[1..] + Kids(level[i]) == level[i + 1..] + NextLevel(level[..i + 1])
  {
    assert level[..i + 1][..i] == level[..i];
    assert (level[i..] + NextLevel(level[..i]))[1..] == level[i + 1..] + NextLevel(level[..i]);
  }

  /** height: a breadth-first search counting the levels below the first. */
  method HeightBfs(t: Node) returns (depth: int)
    ensures depth == Height(t)
  {
    var bfs := [t];
    depth := -1;
    QueueSnoc([], t);
    assert [] + [t] == [t];
    while bfs != []
      invariant bfs != [] ==> depth + 1 + QueueHeight(bfs) == Height(t)
      invariant bfs == [] ==> depth == Height(t)
      decreases QueueSize(bfs)
    {
      var levelSize := |bfs|;
      ghost var level := bfs;
      var i := 0;
      assert level[..0] == [] && level[0..] == level;
      while i < levelSize
        invariant 0 <= i <= levelSize
        invariant bfs == level[i..] + NextLevel(level[..i])
      {
        LevelStep(level, i);
        var current := bfs[0];
        bfs := bfs[1..];
        bfs := EnqueueChildren(bfs, current);
        i := i + 1;
      }
      assert level[i..] == [] && level[..i] == level;
      assert bfs == NextLevel(level);
      NextLevelFacts(level);
      depth := depth + 1;
    }
  }

  /**
   * allWordsRecur: appends to words the word at t (spelled soFar) if t ends
   * one, then those of each child in insertion order.
   */
  method CollectWords(t: Node, soFar: string, words: seq<Word>) returns (out: seq<Word>)
    ensures out == words + AllWordsRecur(t, soFar)
    decreases t
  {
    out := words;
    if IsWord(t) {
      out := out + [Word(soFar, t.popularity.value)];
    }
    ghost var own := out;
    var i := 0;
    while i < |t.children|
      invariant 0 <= i <= |t.children|
      invariant out == own + WordsOfKids(t, soFar, i)
    {
      var c := t.children[i].0;
      out := CollectWords(t.children[i].1, soFar + [c], out);
      i := i + 1;
    }
  }

  /** size: one for t plus the sizes of its children, summed in insertion order. */
  method CountNodes(t: Node) returns (size: nat)
    ensures size == Size(t)
    decreases t
  {
    size := 1;
    var i := 0;
    while i < |t.children|
      invariant 0 <= i <= |t.children|
      invariant size == 1 + SizeOfKids(t, i)
    {
      var d := CountNodes(t.children[i].1);
      size := size + d;
      i := i + 1;
    }
  }

  /** numLeavesRecur: 1 for a childless word, else the children's counts summed. */
  method CountLeaves(t: Node) returns (n: nat)
    ensures n == NumLeaves(t)
    decreases t
  {
    n := 0;
    if t.children == [] && IsWord(t) {
      return 1;
    }
    var i := 0;
    while i < |t.children|
      invariant 0 <= i <= |t.children|
      invariant n == LeavesOfKids(t, i)
    {
      var k := CountLeaves(t.children[i].1);
      n := n + k;
      i := i + 1;
    }
  }

  /**
   * longestWordRecur: prefix followed by the longest of the children's
   * branches, a later one replacing the best so far only when strictly longer.
   */
  method LongestBranch(t: Node, prefix: string) returns (s: string)
    ensures s == LongestWordRecur(t, prefix)
    decreases t
  {
    var longest := "";
    var i := 0;
    while i < |t.children|
      invariant 0 <= i <= |t.children|
      invariant longest == LongestAmong(t, i)
    {
      var c := t.children[i].0;
      var current := LongestBranch(t.children[i].1, [c]);
      if |current| > |longest| {
        longest := current;
      }
      i := i + 1;
    }
    s := prefix + longest;
  }

  /** wordToString: the string of each word, in order. */
  method WordsToStrings(words: seq<Word>) returns (strings: seq<string>)
    ensures strings == WordStrings(words)
  {
    strings := [];
    var i := 0;
    while i < |words|
      invariant 0 <= i <= |words|
      invariant strings == WordStrings(words[..i])
    {
      assert WordStrings(words[..i + 1]) == WordStrings(words[..i]) + [GetWord(words[i])];
      strings := strings + [GetWord(words[i])];
      i := i + 1;
    }
    assert words[..i] == words;
  }
}
