/**
 * What remove does to the tree. The walk cuts the edge to the first node on
 * the word's path whose subtree branches at most once; without such a node
 * it clears the word at the end of the path, or changes nothing when the
 * path is missing.
 */
module RemoveFacts {
  import opened Wrappers
  import opened LinkedMap
  import opened Trie
  import opened Traversal
  import opened TrieWalk
  import InsertFacts

  /** The node at depth k + 1 on w's path exists and branches at most once. */
  ghost predicate CutsAt(n: Node, w: string, k: nat)
  {
    k < |w| && NodeAt(n, w[..k + 1]).Some? && MaxBranching(NodeAt(n, w[..k + 1]).value) <= 1
  }

  /** No node on w's path (below n) branches at most once. */
  ghost predicate NoCut(n: Node, w: string)
  {
    forall k :: 0 <= k < |w| ==> !CutsAt(n, w, k)
  }

  /** k is the first depth at which the edge on w's path may be cut. */
  ghost predicate FirstCut(n: Node, w: string, k: nat)
  {
    CutsAt(n, w, k) && forall j :: 0 <= j < k ==> !CutsAt(n, w, j)
  }

  /** Cut positions seen from the first child on the path. */
  lemma CutsAtShift(n: Node, w: string, k: nat)
    requires w != []
    ensures Get(n.children, w[0]).None? ==> !CutsAt(n, w, k) && NodeAt(n, w).None?
    ensures Get(n.children, w[0]).Some? && k == 0 ==>
      (CutsAt(n, w, k) <==> MaxBranching(Get(n.children, w[0]).value) <= 1)
    ensures Get(n.children, w[0]).Some? && k > 0 ==>
      (CutsAt(n, w, k) <==> CutsAt(Get(n.children, w[0]).value, w[1..], k - 1))
  {
    if k < |w| {
      assert w[..k + 1] == [w[0]] + w[1..][..k];
      NodeAtCons(n, w[0], w[1..][..k]);
    }
  }

  /** The node at depth k + 1 along w from n is the node at depth k along w[1..] from the first child. */
  lemma PathStep(n: Node, w: string, k: nat, next: Node)
    requires k < |w| && Get(n.children, w[0]) == Some(next)
    ensures NodeAt(n, w[..k + 1]) == NodeAt(next, w[1..][..k])
  {
    assert w[..k + 1] == [w[0]] + w[1..][..k];
    NodeAtCons(n, w[0], w[1..][..k]);
  }

  /** A cut at depth k > 0 from n is a cut at depth k - 1 from the first child on the path. */
  lemma CutsAtStep(n: Node, w: string, k: nat, next: Node)
    requires w != [] && 0 < k && Get(n.children, w[0]) == Some(next)
    ensures CutsAt(n, w, k) <==> CutsAt(next, w[1..], k - 1)
  {
    if k < |w| {
      PathStep(n, w, k, next);
    }
  }

  /** No cut on w's path from n is no cut from the first child, and no cut right below n. */
  lemma NoCutShift(n: Node, w: string, next: Node)
    requires w != [] && Get(n.children, w[0]) == Some(next)
    ensures NoCut(n, w) <==> MaxBranching(next) > 1 && NoCut(next, w[1..])
  {
    CutsAtShift(n, w, 0);
    if NoCut(n, w) {
      forall k | 0 <= k < |w[1..]| ensures !CutsAt(next, w[1..], k) {
        CutsAtShift(n, w, k + 1);
      }
    }
    if MaxBranching(next) > 1 && NoCut(next, w[1..]) {
      forall k | 0 <= k < |w| ensures !CutsAt(n, w, k) {
        CutsAtShift(n, w, k);
      }
    }
  }

  /**
   * remove returns false exactly when w's path is missing and no node before
   * the missing edge branches at most once; it then changes nothing.
   */
  lemma {:induction false} RemoveFalseIffAbsent(n: Node, w: string)
    ensures !RemovePath(n, w).1 <==> NodeAt(n, w).None? && NoCut(n, w)
    ensures !RemovePath(n, w).1 ==> RemovePath(n, w).0 == n
    decreases |w|
  {
    if w != [] {
      CutsAtShift(n, w, 0);
      match Get(n.children, w[0])
      case None =>
        forall k | 0 <= k < |w| ensures !CutsAt(n, w, k) {
          CutsAtShift(n, w, k);
        }
      case Some(next) =>
        NoCutShift(n, w, next);
        if MaxBranching(next) > 1 {
          RemoveFalseIffAbsent(next, w[1..]);
        }
    }
  }

  /** A non-empty prefix test splits into its first character and the rest. */
  lemma PrefixStep(a: string, b: string)
    requires a != [] && b != []
    ensures a <= b <==> a[0] == b[0] && a[1..] <= b[1..]
  {
    if a[0] == b[0] && a[1..] <= b[1..] {
      assert a == [a[0]] + a[1..] && b[..|a|] == [b[0]] + b[1..][..|a| - 1];
    }
  }

  /** Cutting the edge under c removes exactly the words that begin with c. */
  lemma CutChildWords(n: Node, c: char, v: string)
    requires DistinctKeys(n.children)
    ensures PopularityOf(n.(children := RemoveKey(n.children, c)), v) ==
      (if v != [] && v[0] == c then None else PopularityOf(n, v))
  {
    if v != [] {
      var r := n.(children := RemoveKey(n.children, c));
      PopularityViaChild(r, v);
      PopularityViaChild(n, v);
      EmptyHoldsNothing(v[1..]);
    }
  }

  /** A prefix of w of k + 1 characters starts v exactly when the first characters agree and the rest does. */
  lemma PrefixShift(w: string, k: nat, v: string)
    requires k < |w| && v != []
    ensures w[..k + 1] <= v <==> v[0] == w[0] && w[1..][..k] <= v[1..]
  {
    PrefixStep(w[..k + 1], v);
    assert w[..k + 1][1..] == w[1..][..k];
  }

  /** Two non-empty strings are equal exactly when their first characters and their rests are. */
  lemma EqualShift(w: string, v: string)
    requires w != [] && v != []
    ensures v == w <==> v[0] == w[0] && v[1..] == w[1..]
  {
    assert v == [v[0]] + v[1..] && w == [w[0]] + w[1..];
  }

  /** One level of RemoveAtCut: the words of n after its child under w[0] became t. */
  lemma DescendCutWords(n: Node, w: string, k: nat, next: Node, t: Node, v: string)
    requires w != [] && k < |w| && Get(n.children, w[0]) == Some(next)
    requires v != [] && v[0] == w[0] ==>
      PopularityOf(t, v[1..]) == if w[1..][..k] <= v[1..] then None else PopularityOf(next, v[1..])
    ensures PopularityOf(n.(children := Put(n.children, w[0], t)), v) ==
      (if w[..k + 1] <= v then None else PopularityOf(n, v))
  {
    PutChildWords(n, w[0], t, v);
    assert PopularityOf(n, v) == if v != [] && v[0] == w[0] then PopularityOf(next, v[1..]) else PopularityOf(n, v) by {
      PutChildWords(n, w[0], next, v);
      assert Put(n.children, w[0], next) == n.children;
    }
    if v != [] {
      PrefixShift(w, k, v);
    }
  }

  /** One level of RemoveAtEnd: the words of n after its child under w[0] became t. */
  lemma DescendEndWords(n: Node, w: string, next: Node, t: Node, v: string)
    requires w != [] && Get(n.children, w[0]) == Some(next)
    requires v != [] && v[0] == w[0] ==>
      PopularityOf(t, v[1..]) == if v[1..] == w[1..] then None else PopularityOf(next, v[1..])
    ensures PopularityOf(n.(children := Put(n.children, w[0], t)), v) ==
      (if v == w then None else PopularityOf(n, v))
  {
    PutChildWords(n, w[0], t, v);
    assert PopularityOf(n, v) == if v != [] && v[0] == w[0] then PopularityOf(next, v[1..]) else PopularityOf(n, v) by {
      PutChildWords(n, w[0], next, v);
      assert Put(n.children, w[0], next) == n.children;
    }
    if v != [] {
      EqualShift(w, v);
    }
  }

  /** after holds the words of before, except that every word starting with prefix is gone. */
  ghost predicate LosesPrefix(before: Node, after: Node, prefix: string)
  {
    forall v :: PopularityOf(after, v) == if prefix <= v then None else PopularityOf(before, v)
  }

  /** after holds the words of before, except that w is gone. */
  ghost predicate LosesOnly(before: Node, after: Node, w: string)
  {
    forall v :: PopularityOf(after, v) == if v == w then None else PopularityOf(before, v)
  }

  /** Cutting the edge under w[0] removes exactly the words that start with w[0]. */
  lemma CutHereWords(n: Node, w: string)
    requires DistinctKeys(n.children) && w != []
    ensures LosesPrefix(n, n.(children := RemoveKey(n.children, w[0])), w[..1])
  {
    forall v ensures PopularityOf(n.(children := RemoveKey(n.children, w[0])), v) == if w[..1] <= v then None else PopularityOf(n, v) {
      CutChildWords(n, w[0], v);
      if v != [] {
        PrefixShift(w, 0, v);
      }
    }
  }

  /** A cut below the child under w[0] is a cut below n, one character longer. */
  lemma DescendCut(n: Node, w: string, k: nat, next: Node, t: Node)
    requires w != [] && k < |w| && Get(n.children, w[0]) == Some(next)
    requires LosesPrefix(next, t, w[1..][..k])
    ensures LosesPrefix(n, n.(children := Put(n.children, w[0], t)), w[..k + 1])
  {
    forall v ensures PopularityOf(n.(children := Put(n.children, w[0], t)), v) == if w[..k + 1] <= v then None else PopularityOf(n, v) {
      if v != [] {
        assert PopularityOf(t, v[1..]) == if w[1..][..k] <= v[1..] then None else PopularityOf(next, v[1..]);
      }
      DescendCutWords(n, w, k, next, t, v);
    }
  }

  /** Clearing w[1..] below the child under w[0] clears w below n. */
  lemma DescendEnd(n: Node, w: string, next: Node, t: Node)
    requires w != [] && Get(n.children, w[0]) == Some(next)
    requires LosesOnly(next, t, w[1..])
    ensures LosesOnly(n, n.(children := Put(n.children, w[0], t)), w)
  {
    forall v ensures PopularityOf(n.(children := Put(n.children, w[0], t)), v) == if v == w then None else PopularityOf(n, v) {
      if v != [] {
        assert PopularityOf(t, v[1..]) == if v[1..] == w[1..] then None else PopularityOf(next, v[1..]);
      }
      DescendEndWords(n, w, next, t, v);
    }
  }

  /** A first cut at depth k > 0 is a first cut at depth k - 1 below the first child. */
  lemma FirstCutShift(n: Node, w: string, k: nat, next: Node)
    requires FirstCut(n, w, k) && k > 0
    requires w != [] && Get(n.children, w[0]) == Some(next)
    ensures MaxBranching(next) > 1 && FirstCut(next, w[1..], k - 1)
    ensures NodeAt(n, w[..k + 1]) == NodeAt(next, w[1..][..k])
  {
    assert !CutsAt(n, w, 0);
    CutsAtShift(n, w, 0);
    CutsAtStep(n, w, k, next);
    forall i | 0 <= i < k - 1 ensures !CutsAt(next, w[1..], i) {
      assert !CutsAt(n, w, i + 1);
      CutsAtStep(n, w, i + 1, next);
    }
    PathStep(n, w, k, next);
  }

  /**
   * When the walk first cuts at depth k, remove returns true, every word
   * beginning with the first k + 1 characters of w disappears, and every
   * other word keeps its popularity.
   */
  lemma {:induction false} RemoveAtCut(n: Node, w: string, k: nat)
    requires Valid(n) && FirstCut(n, w, k)
    ensures RemovePath(n, w).1
    ensures LosesPrefix(n, RemovePath(n, w).0, w[..k + 1])
    decreases |w|
  {
    CutsAtShift(n, w, 0);
    var next := Get(n.children, w[0]).value;
    if k == 0 {
      CutHereWords(n, w);
    } else {
      FirstCutShift(n, w, k, next);
      ChildValid(n, w[0]);
      RemoveAtCut(next, w[1..], k - 1);
      DescendCut(n, w, k, next, RemovePath(next, w[1..]).0);
    }
  }

  /** When the walk first cuts at depth k, the tree loses exactly the nodes of the cut subtree. */
  lemma {:induction false} RemoveAtCutSize(n: Node, w: string, k: nat)
    requires FirstCut(n, w, k)
    ensures Size(RemovePath(n, w).0) == Size(n) - Size(NodeAt(n, w[..k + 1]).value)
    decreases |w|
  {
    CutsAtShift(n, w, 0);
    CutsAtShift(n, w, k);
    var next := Get(n.children, w[0]).value;
    if k == 0 {
      NodeAtCons(n, w[0], []);
      assert w[..1] == [w[0]] + [];
      CutChildSize(n, w[0]);
    } else {
      FirstCutShift(n, w, k, next);
      RemoveAtCutSize(next, w[1..], k - 1);
      PutChildSize(n, w[0], RemovePath(next, w[1..]).0);
    }
  }

  /**
   * When no node on w's existing path branches at most once, remove returns
   * true and only w stops being a word.
   */
  lemma {:induction false} RemoveAtEnd(n: Node, w: string)
    requires NodeAt(n, w).Some? && NoCut(n, w)
    ensures RemovePath(n, w).1
    ensures LosesOnly(n, RemovePath(n, w).0, w)
    decreases |w|
  {
    var r := RemovePath(n, w).0;
    if w == [] {
      forall v ensures PopularityOf(r, v) == if v == w then None else PopularityOf(n, v) {
        if v != [] {
          PopularityViaChild(r, v);
          PopularityViaChild(n, v);
        }
      }
    } else {
      var next := Get(n.children, w[0]).value;
      NoCutShift(n, w, next);
      RemoveAtEnd(next, w[1..]);
      DescendEnd(n, w, next, RemovePath(next, w[1..]).0);
    }
  }

  /** Clearing the word at the end of an uncut path removes no node. */
  lemma {:induction false} RemoveAtEndSize(n: Node, w: string)
    requires NodeAt(n, w).Some? && NoCut(n, w)
    ensures Size(RemovePath(n, w).0) == Size(n)
    decreases |w|
  {
    if w == [] {
      SameChildren(n, RemovePath(n, w).0);
    } else {
      var next := Get(n.children, w[0]).value;
      NoCutShift(n, w, next);
      RemoveAtEndSize(next, w[1..]);
      PutChildSize(n, w[0], RemovePath(next, w[1..]).0);
    }
  }

  /** After remove(w) on a valid tree, w is no longer a word. */
  lemma {:induction false} RemoveClearsWord(n: Node, w: string)
    requires Valid(n)
    ensures !ContainsWord(RemovePath(n, w).0, w)
    decreases |w|
  {
    if w != [] {
      match Get(n.children, w[0])
      case None =>
      case Some(next) =>
        if MaxBranching(next) > 1 {
          ChildValid(n, w[0]);
          RemoveClearsWord(next, w[1..]);
        }
    }
  }

  /** remove keeps the keys of every child map distinct. */
  lemma {:induction false} RemovePreservesValid(n: Node, w: string)
    requires Valid(n)
    ensures Valid(RemovePath(n, w).0)
    decreases |w|
  {
    if w != [] {
      var r := RemovePath(n, w).0;
      match Get(n.children, w[0])
      case None =>
      case Some(next) =>
        if MaxBranching(next) <= 1 {
          forall i | 0 <= i < |r.children| ensures Valid(r.children[i].1) {
            assert r.children[i] in r.children;
            var k :| 0 <= k < |n.children| && n.children[k] == r.children[i];
          }
        } else {
          var t := RemovePath(next, w[1..]).0;
          ChildValid(n, w[0]);
          RemovePreservesValid(next, w[1..]);
          forall i | 0 <= i < |r.children| ensures Valid(r.children[i].1) {
            assert r.children[i] in r.children;
            if r.children[i] != (w[0], t) {
              var k :| 0 <= k < |n.children| && n.children[k] == r.children[i];
            }
          }
        }
    }
  }

  /** after is before, or before with exactly one element taken out, the others in order. */
  ghost predicate DropsAtMostOne(before: seq<char>, after: seq<char>)
  {
    after == before || exists j :: 0 <= j < |before| && after == before[..j] + before[j + 1..]
  }

  /**
   * remove never adds or reorders an edge: every node of the result was a
   * node of the old tree at the same path, and its keys are the old keys in
   * their old order, with at most the one cut key taken out.
   */
  lemma {:induction false} RemoveKeepsEdgeOrder(n: Node, w: string, u: string)
    requires Valid(n) && NodeAt(RemovePath(n, w).0, u).Some?
    ensures NodeAt(n, u).Some?
    ensures DropsAtMostOne(Keys(NodeAt(n, u).value.children), Keys(NodeAt(RemovePath(n, w).0, u).value.children))
    decreases |w|
  {
    var r := RemovePath(n, w).0;
    if w == [] {
      assert r.children == n.children;
      if u != [] {
        assert Get(r.children, u[0]) == Get(n.children, u[0]);
      }
    } else if Get(n.children, w[0]).Some? {
      var next := Get(n.children, w[0]).value;
      if MaxBranching(next) <= 1 {
        assert r.children == RemoveKey(n.children, w[0]);
        if u == [] {
          var j := IndexOf(n.children, w[0]).value;
          assert Keys(r.children) == Keys(n.children)[..j] + Keys(n.children)[j + 1..];
        } else {
          assert u[0] != w[0];
          assert Get(r.children, u[0]) == Get(n.children, u[0]);
        }
      } else {
        var t := RemovePath(next, w[1..]).0;
        assert r.children == Put(n.children, w[0], t);
        if u != [] {
          if u[0] == w[0] {
            ChildValid(n, w[0]);
            RemoveKeepsEdgeOrder(next, w[1..], u[1..]);
          } else {
            assert Get(r.children, u[0]) == Get(n.children, u[0]);
          }
        }
      }
    }
  }

  /** A node with a single child branches no more than that child does, and at least once. */
  lemma SingleChildBranching(t: Node)
    requires |t.children| == 1
    ensures MaxBranching(t) == Max(1, MaxBranching(t.children[0].1))
  {
    assert BranchingOfKids(t, 1) == Max(BranchingOfKids(t, 0), MaxBranching(t.children[0].1));
  }

  /** remove below a live node that branches more than once leaves it live. */
  lemma {:induction false} RemoveKeepsLive(t: Node, w: string)
    requires Live(t) && MaxBranching(t) > 1
    ensures Live(RemovePath(t, w).0)
    decreases |w|
  {
    var r := RemovePath(t, w).0;
    if w == [] {
      assert t.children != [];
    } else {
      match Get(t.children, w[0])
      case None =>
      case Some(next) =>
        assert (w[0], next) in t.children;
        if MaxBranching(next) <= 1 {
          if |t.children| == 1 {
            SingleChildBranching(t);
            assert false;
          }
          forall i | 0 <= i < |r.children| ensures Live(r.children[i].1) {
            assert r.children[i] in r.children;
            var k :| 0 <= k < |t.children| && t.children[k] == r.children[i];
          }
        } else {
          var s := RemovePath(next, w[1..]).0;
          RemoveKeepsLive(next, w[1..]);
          forall i | 0 <= i < |r.children| ensures Live(r.children[i].1) {
            assert r.children[i] in r.children;
            if r.children[i] != (w[0], s) {
              var k :| 0 <= k < |t.children| && t.children[k] == r.children[i];
            }
          }
        }
    }
  }

  /** remove never leaves a node that neither ends a word nor leads to one. */
  lemma RemovePreservesNoDeadNodes(n: Node, w: string)
    requires NoDeadNodes(n)
    ensures NoDeadNodes(RemovePath(n, w).0)
  {
    if w != [] {
      var r := RemovePath(n, w).0;
      match Get(n.children, w[0])
      case None =>
      case Some(next) =>
        assert (w[0], next) in n.children;
        if MaxBranching(next) <= 1 {
          forall i | 0 <= i < |r.children| ensures Live(r.children[i].1) {
            assert r.children[i] in r.children;
            var k :| 0 <= k < |n.children| && n.children[k] == r.children[i];
          }
        } else {
          var s := RemovePath(next, w[1..]).0;
          RemoveKeepsLive(next, w[1..]);
          forall i | 0 <= i < |r.children| ensures Live(r.children[i].1) {
            assert r.children[i] in r.children;
            if r.children[i] != (w[0], s) {
              var k :| 0 <= k < |n.children| && n.children[k] == r.children[i];
            }
          }
        }
    }
  }

  /** A word inserted into a new tree forms a single chain, which never branches twice. */
  lemma {:induction false} ChainBranching(w: string, p: int)
    ensures MaxBranching(InsertPath(Empty, w, p)) <= 1
    decreases |w|
  {
    if w != [] {
      ChainBranching(w[1..], p);
      SingleChildBranching(InsertPath(Empty, w, p));
    }
  }

  /** Inserting a word into a new tree and removing it again gives back a new tree. */
  lemma InsertThenRemoveOnEmpty(w: string, p: int)
    ensures RemovePath(InsertPath(Empty, w, p), w) == (Empty, true)
  {
    if w != [] {
      ChainBranching(w[1..], p);
    }
  }

  /** insert(w) followed by remove(w) reports success and leaves w absent. */
  lemma InsertThenRemove(n: Node, w: string, p: int)
    requires Valid(n)
    ensures RemovePath(InsertPath(n, w, p), w).1
    ensures !ContainsWord(RemovePath(InsertPath(n, w, p), w).0, w)
  {
    InsertFacts.InsertStoresWord(n, w, p);
    InsertFacts.InsertPreservesValid(n, w, p);
    RemoveFalseIffAbsent(InsertPath(n, w, p), w);
    RemoveClearsWord(InsertPath(n, w, p), w);
  }
}
