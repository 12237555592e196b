/** What insert does to the stored words, to the size and to the shape of the tree. */
module InsertFacts {
  import opened Wrappers
  import opened LinkedMap
  import opened Trie
  import opened Traversal
  import opened TrieWalk

  /** The popularity w has after insert(w, p): p, or the larger of p and the old one. */
  function RaisedPopularity(before: Option<int>, p: int): int
  {
    match before
    case None => p
    case Some(q) => Max(q, p)
  }

  /** After insert(w, p), w is a word whose popularity is max(old, p), absent counting as lowest. */
  lemma {:induction false} InsertStoresWord(n: Node, w: string, p: int)
    ensures ContainsWord(InsertPath(n, w, p), w)
    ensures PopularityOf(InsertPath(n, w, p), w) == Some(RaisedPopularity(PopularityOf(n, w), p))
    decreases |w|
  {
    if w != [] {
      var t := Child(n, w[0]);
      InsertStoresWord(t, w[1..], p);
      PopularityViaChild(n, w);
      PopularityViaChild(InsertPath(n, w, p), w);
    }
  }

  /** insert(w, p) leaves every other word and its popularity as it was. */
  lemma {:induction false} InsertKeepsOtherWords(n: Node, w: string, p: int, v: string)
    requires v != w
    ensures PopularityOf(InsertPath(n, w, p), v) == PopularityOf(n, v)
    decreases |w|
  {
    var n' := InsertPath(n, w, p);
    if v != [] {
      assert PopularityOf(n, v) == PopularityOf(Child(n, v[0]), v[1..]) by {
        PopularityViaChild(n, v);
      }
      assert PopularityOf(n', v) == PopularityOf(Child(n', v[0]), v[1..]) by {
        PopularityViaChild(n', v);
      }
      if w == [] {
        assert n'.children == n.children;
      } else if v[0] == w[0] {
        var t := Child(n, w[0]);
        assert Child(n', v[0]) == InsertPath(t, w[1..], p);
        assert v[1..] != w[1..] by {
          assert v == [v[0]] + v[1..] && w == [w[0]] + w[1..];
        }
        InsertKeepsOtherWords(t, w[1..], p, v[1..]);
      } else {
        assert Child(n', v[0]) == Child(n, v[0]);
      }
    }
  }

  /** Inserting a word with a popularity no larger than its current one changes nothing. */
  lemma {:induction false} InsertNoChange(n: Node, w: string, p: int)
    requires PopularityOf(n, w).Some? && PopularityOf(n, w).value >= p
    ensures InsertPath(n, w, p) == n
    decreases |w|
  {
    if w != [] {
      PopularityViaChild(n, w);
      EmptyHoldsNothing(w[1..]);
      var t := Child(n, w[0]);
      InsertNoChange(t, w[1..], p);
    }
  }

  /** insert(w) (popularity 0) on a word whose popularity is not negative changes nothing. */
  lemma InsertDefaultNoChange(n: Node, w: string)
    requires PopularityOf(n, w).Some? && PopularityOf(n, w).value >= 0
    ensures InsertPath(n, w, 0) == n
  {
    InsertNoChange(n, w, 0);
  }

  /** Repeating the same insert changes nothing. */
  lemma InsertIdempotent(n: Node, w: string, p: int)
    ensures InsertPath(InsertPath(n, w, p), w, p) == InsertPath(n, w, p)
  {
    InsertStoresWord(n, w, p);
    InsertNoChange(InsertPath(n, w, p), w, p);
  }

  /** insert adds one node for each character beyond the part of w's path that exists. */
  lemma {:induction false} InsertSize(n: Node, w: string, p: int)
    ensures Size(InsertPath(n, w, p)) == Size(n) + |w| - PathLength(n, w)
    decreases |w|
  {
    if w == [] {
      SameChildren(n, InsertPath(n, w, p));
    } else {
      var t := Child(n, w[0]);
      var t' := InsertPath(t, w[1..], p);
      InsertSize(t, w[1..], p);
      if Get(n.children, w[0]).Some? {
        PutChildSize(n, w[0], t');
      } else {
        assert Put(n.children, w[0], t') == n.children + [(w[0], t')];
        AppendChildSize(n, w[0], t');
      }
    }
  }

  /**
   * insert never removes or reorders an edge: at every node that existed,
   * the old keys are a prefix of the new ones, with at most one key added.
   */
  lemma {:induction false} InsertKeepsEdgeOrder(n: Node, w: string, p: int, u: string)
    requires NodeAt(n, u).Some?
    ensures NodeAt(InsertPath(n, w, p), u).Some?
    ensures Keys(NodeAt(n, u).value.children) <= Keys(NodeAt(InsertPath(n, w, p), u).value.children)
    ensures |NodeAt(InsertPath(n, w, p), u).value.children| <= |NodeAt(n, u).value.children| + 1
    decreases |u|
  {
    var n' := InsertPath(n, w, p);
    if u != [] {
      var t := Get(n.children, u[0]).value;
      if w != [] && u[0] == w[0] {
        InsertKeepsEdgeOrder(t, w[1..], p, u[1..]);
      } else {
        assert Get(n'.children, u[0]) == Get(n.children, u[0]);
      }
    }
  }

  /** insert keeps the keys of every child map distinct. */
  lemma {:induction false} InsertPreservesValid(n: Node, w: string, p: int)
    requires Valid(n)
    ensures Valid(InsertPath(n, w, p))
    decreases |w|
  {
    if w != [] {
      var n' := InsertPath(n, w, p);
      var t := Child(n, w[0]);
      ChildValid(n, w[0]);
      InsertPreservesValid(t, w[1..], p);
      forall i | 0 <= i < |n'.children| ensures Valid(n'.children[i].1) {
        assert n'.children[i] in n'.children;
        if n'.children[i] != (w[0], InsertPath(t, w[1..], p)) {
          var k :| 0 <= k < |n.children| && n.children[k] == n'.children[i];
        }
      }
    }
  }

  /** Inserting into a live node or a new one gives a live node. */
  lemma {:induction false} InsertLive(t: Node, w: string, p: int)
    requires Live(t) || t == Empty
    ensures Live(InsertPath(t, w, p))
    decreases |w|
  {
    if w != [] {
      var t' := InsertPath(t, w, p);
      var c := Child(t, w[0]);
      assert Live(c) || c == Empty by {
        if Get(t.children, w[0]).Some? {
          var k :| 0 <= k < |t.children| && t.children[k] == (w[0], c);
        }
      }
      InsertLive(c, w[1..], p);
      assert Get(t'.children, w[0]).Some?;
      forall i | 0 <= i < |t'.children| ensures Live(t'.children[i].1) {
        assert t'.children[i] in t'.children;
        if t'.children[i] != (w[0], InsertPath(c, w[1..], p)) {
          var k :| 0 <= k < |t.children| && t.children[k] == t'.children[i];
        }
      }
    }
  }

  /** insert never creates a node that is neither a word nor on the way to one. */
  lemma InsertPreservesNoDeadNodes(n: Node, w: string, p: int)
    requires NoDeadNodes(n)
    ensures NoDeadNodes(InsertPath(n, w, p))
  {
    if w != [] {
      var n' := InsertPath(n, w, p);
      var c := Child(n, w[0]);
      assert Live(c) || c == Empty by {
        if Get(n.children, w[0]).Some? {
          var k :| 0 <= k < |n.children| && n.children[k] == (w[0], c);
        }
      }
      InsertLive(c, w[1..], p);
      forall i | 0 <= i < |n'.children| ensures Live(n'.children[i].1) {
        assert n'.children[i] in n'.children;
        if n'.children[i] != (w[0], InsertPath(c, w[1..], p)) {
          var k :| 0 <= k < |n.children| && n.children[k] == n'.children[i];
        }
      }
    }
  }
}
