/**
 * The dictionary tree as a value: every node has an optional popularity (a
 * word ends here exactly when it is present) and its children keyed by
 * character in insertion order. The functions here define what each
 * operation of the tree computes; DictionaryTree (dictionary_tree.dfy)
 * performs the operations step by step and is proved to agree with them.
 */
module Trie {
  import opened Wrappers
  import opened LinkedMap
  import opened Words
  import opened Ranking

  datatype Node = Node(popularity: Option<int>, children: seq<(char, Node)>)

  /** A newly constructed tree: no popularity and no children. */
  const Empty: Node := Node(None, [])

  /** Every child map in the tree has distinct keys. */
  ghost predicate Valid(n: Node)
  {
    && DistinctKeys(n.children)
    && forall i :: 0 <= i < |n.children| ==> Valid(n.children[i].1)
  }

  /** n and every node below it ends a word or has a child. */
  ghost predicate Live(n: Node)
  {
    && (n.popularity.Some? || n.children != [])
    && forall i :: 0 <= i < |n.children| ==> Live(n.children[i].1)
  }

  /** No node below the root is a dead end (neither a word nor a prefix of one). */
  ghost predicate NoDeadNodes(n: Node)
  {
    forall i :: 0 <= i < |n.children| ==> Live(n.children[i].1)
  }

  /** No edge in the tree is labelled with an ASCII capital letter. */
  ghost predicate NoCapitals(n: Node)
  {
    forall i :: 0 <= i < |n.children| ==>
      !('A' <= n.children[i].0 <= 'Z') && NoCapitals(n.children[i].1)
  }

  predicate IsWord(n: Node)
  {
    n.popularity.Some?
  }

  // ---------------------------------------------------------------------
  // Case folding

  /** Lower-case folding of one character, for the ASCII letters. */
  function LowerChar(c: char): char
  {
    if 'A' <= c <= 'Z' then (c as int + 32) as char else c
  }

  /** s holds no ASCII capital letter. */
  predicate LowerCase(s: string)
  {
    forall i :: 0 <= i < |s| ==> !('A' <= s[i] <= 'Z')
  }

  /**
   * String.toLowerCase, restricted to ASCII letters: the result holds no
   * capital, and a string is left as it is exactly when it holds none.
   */
  function Lower(s: string): (r: string)
    ensures |r| == |s|
    ensures forall i :: 0 <= i < |s| ==> r[i] == LowerChar(s[i])
    ensures LowerCase(r)
    ensures r == s <==> LowerCase(s)
  {
    seq(|s|, i requires 0 <= i < |s| => LowerChar(s[i]))
  }

  // ---------------------------------------------------------------------
  // Walking a path

  /** The child under c, or a new empty node when there is none. */
  function Child(n: Node, c: char): Node
  {
    match Get(n.children, c)
    case Some(t) => t
    case None => Empty
  }

  /** The node reached from n by following the characters of u, if every edge exists. */
  function NodeAt(n: Node, u: string): Option<Node>
    decreases |u|
  {
    if u == [] then Some(n)
    else match Get(n.children, u[0])
      case None => None
      case Some(t) => NodeAt(t, u[1..])
  }

  /** contains: the path exists and its end node carries a popularity. */
  predicate ContainsWord(n: Node, w: string)
  {
    match NodeAt(n, w)
    case None => false
    case Some(m) => IsWord(m)
  }

  /** The popularity stored for w, if w is a word of the tree. */
  function PopularityOf(n: Node, w: string): Option<int>
  {
    match NodeAt(n, w)
    case None => None
    case Some(m) => m.popularity
  }

  /** How many characters of w the first loop of insert can follow. */
  function PathLength(n: Node, w: string): (k: nat)
    ensures k <= |w|
    decreases |w|
  {
    if w == [] then 0
    else match Get(n.children, w[0])
      case None => 0
      case Some(t) => 1 + PathLength(t, w[1..])
  }

  // ---------------------------------------------------------------------
  // Mutations

  /**
   * setWord: the popularity becomes p unless the node already holds one at
   * least as large; the flag tells whether it changed.
   */
  function SetWord(pop: Option<int>, p: int): (r: (Option<int>, bool))
    ensures r.0.Some? && r.0.value >= p
    ensures pop.Some? ==> r.0.value >= pop.value
    ensures r.0.value == p || r.0 == pop
    ensures r.1 <==> r.0 != pop
  {
    if pop.None? || pop.value < p then (Some(p), true) else (pop, false)
  }

  /**
   * insert on an already lower-cased word: follow existing edges, add a new
   * node (appended after its siblings) for each missing character, and
   * apply setWord at the last node.
   */
  function InsertPath(n: Node, w: string, p: int): Node
    decreases |w|
  {
    if w == [] then n.(popularity := SetWord(n.popularity, p).0)
    else n.(children := Put(n.children, w[0], InsertPath(Child(n, w[0]), w[1..], p)))
  }

  /**
   * remove on an already lower-cased word. While walking, as soon as the
   * next child's whole subtree branches at most once, the edge to it is cut
   * and the result is true; a missing edge gives false and no change;
   * reaching the end node clears its popularity and gives true.
   */
  function RemovePath(n: Node, w: string): (Node, bool)
    decreases |w|
  {
    if w == [] then (n.(popularity := None), true)
    else match Get(n.children, w[0])
      case None => (n, false)
      case Some(next) =>
        if MaxBranching(next) <= 1 then (n.(children := RemoveKey(n.children, w[0])), true)
        else
          var (t, b) := RemovePath(next, w[1..]);
          (n.(children := Put(n.children, w[0], t)), b)
  }

  // ---------------------------------------------------------------------
  // Aggregates. Each XOfKids(n, i) folds the first i children of n, in
  // insertion order, as the source's loops over the child map do.

  /** size: the number of nodes. */
  function Size(n: Node): (r: nat)
    ensures r >= 1
    decreases n, |n.children| + 1
  {
    1 + SizeOfKids(n, |n.children|)
  }

  function SizeOfKids(n: Node, i: nat): nat
    requires i <= |n.children|
    decreases n, i
  {
    if i == 0 then 0 else SizeOfKids(n, i - 1) + Size(n.children[i - 1].1)
  }

  /** numLeaves: the childless nodes that end a word. */
  function NumLeaves(n: Node): nat
    decreases n, |n.children| + 1
  {
    if n.children == [] && IsWord(n) then 1 else LeavesOfKids(n, |n.children|)
  }

  function LeavesOfKids(n: Node, i: nat): nat
    requires i <= |n.children|
    decreases n, i
  {
    if i == 0 then 0 else LeavesOfKids(n, i - 1) + NumLeaves(n.children[i - 1].1)
  }

  function Max(a: int, b: int): int
  {
    if a < b then b else a
  }

  /** maximumBranching: the largest number of children of any node. */
  function MaxBranching(n: Node): (r: nat)
    ensures r >= |n.children|
    decreases n, |n.children| + 1
  {
    Max(|n.children|, BranchingOfKids(n, |n.children|))
  }

  function BranchingOfKids(n: Node, i: nat): nat
    requires i <= |n.children|
    decreases n, i
  {
    if i == 0 then 0 else Max(BranchingOfKids(n, i - 1), MaxBranching(n.children[i - 1].1))
  }

  /** height: the number of edges on a longest branch. */
  function Height(n: Node): nat
    decreases n, |n.children| + 1
  {
    if n.children == [] then 0 else 1 + HeightOfKids(n, |n.children|)
  }

  function HeightOfKids(n: Node, i: nat): nat
    requires i <= |n.children|
    decreases n, i
  {
    if i == 0 then 0 else Max(HeightOfKids(n, i - 1), Height(n.children[i - 1].1))
  }

  /**
   * longestWordRecur: prefix followed by the longest branch below n, where
   * a later child replaces the best so far only when strictly longer.
   */
  function LongestWordRecur(n: Node, prefix: string): string
    decreases n, |n.children| + 1
  {
    prefix + LongestAmong(n, |n.children|)
  }

  function LongestAmong(n: Node, i: nat): string
    requires i <= |n.children|
    decreases n, i
  {
    if i == 0 then ""
    else
      var longest := LongestAmong(n, i - 1);
      var current := LongestWordRecur(n.children[i - 1].1, [n.children[i - 1].0]);
      if |current| > |longest| then current else longest
  }

  /** longestWord */
  function LongestWord(n: Node): string
  {
    LongestWordRecur(n, "")
  }

  // ---------------------------------------------------------------------
  // Traversal and prediction

  /**
   * allWordsRecur: the words at and below n, each spelled soFar followed by
   * the path to it, in preorder with children in insertion order.
   */
  function AllWordsRecur(n: Node, soFar: string): seq<Word>
    decreases n, |n.children| + 1
  {
    (if IsWord(n) then [Word(soFar, n.popularity.value)] else [])
      + WordsOfKids(n, soFar, |n.children|)
  }

  function WordsOfKids(n: Node, soFar: string, i: nat): seq<Word>
    requires i <= |n.children|
    decreases n, i
  {
    if i == 0 then []
    else WordsOfKids(n, soFar, i - 1) + AllWordsRecur(n.children[i - 1].1, soFar + [n.children[i - 1].0])
  }

  /** allWords */
  function AllWords(n: Node): seq<Word>
  {
    AllWordsRecur(n, "")
  }

  /** wordToString: the strings of the words, in order. */
  function WordStrings(ws: seq<Word>): (r: seq<string>)
    ensures |r| == |ws|
    ensures forall i :: 0 <= i < |ws| ==> r[i] == ws[i].word
  {
    seq(|ws|, i requires 0 <= i < |ws| => ws[i].word)
  }

  /**
   * The exceptions subList(0, k) raises: IllegalArgumentException when k is
   * negative (the start index 0 lies past the end index), and
   * IndexOutOfBoundsException when k exceeds the list's length.
   */
  datatype Error = IllegalArgument | IndexOutOfBounds

  /** The completions of an existing prefix u, ranked by popularity. */
  function Ranked(m: Node, u: string): seq<Word>
  {
    SortByPopularity(AllWordsRecur(m, u))
  }

  /**
   * predict(prefix, k) on an already lower-cased prefix u: no completions
   * when the path is missing, otherwise the first k ranked completions;
   * subList fails with IllegalArgument when k is negative and with
   * IndexOutOfBounds when k exceeds their number.
   */
  function PredictPath(n: Node, u: string, k: int): Result<seq<string>, Error>
  {
    match NodeAt(n, u)
    case None => Success([])
    case Some(m) =>
      var ranked := Ranked(m, u);
      if k < 0 then Failure(IllegalArgument)
      else if k > |ranked| then Failure(IndexOutOfBounds)
      else Success(WordStrings(ranked[..k]))
  }

  /** predict(prefix): the head of predict(prefix, 1), or nothing. */
  function PredictOnePath(n: Node, u: string): Result<Option<string>, Error>
  {
    match PredictPath(n, u, 1)
    case Failure(e) => Failure(e)
    case Success(p) => Success(if p == [] then None else Some(p[0]))
  }
}
