/** Facts about walking paths and folding over children, shared by the proofs. */
module TrieWalk {
  import opened Wrappers
  import opened LinkedMap
  import opened Trie
  import opened Traversal

  /** Walking c then rest is walking rest from the child under c. */
  lemma NodeAtCons(n: Node, c: char, rest: string)
    ensures NodeAt(n, [c] + rest) == match Get(n.children, c)
      case None => None
      case Some(t) => NodeAt(t, rest)
  {
    assert ([c] + rest)[0] == c && ([c] + rest)[1..] == rest;
  }

  /** A new node holds no word. */
  lemma EmptyHoldsNothing(u: string)
    ensures PopularityOf(Empty, u) == None
    ensures u != [] ==> NodeAt(Empty, u) == None
  {
  }

  /** The popularity of c + rest is that of rest in Child(n, c). */
  lemma PopularityViaChild(n: Node, w: string)
    requires w != []
    ensures PopularityOf(n, w) == PopularityOf(Child(n, w[0]), w[1..])
  {
    EmptyHoldsNothing(w[1..]);
  }

  /** Two nodes with the same children have the same folds over them. */
  lemma SameChildren(n: Node, n': Node)
    requires n.children == n'.children
    ensures Size(n) == Size(n') && Height(n) == Height(n') && MaxBranching(n) == MaxBranching(n')
  {
    NodeSize(n);
    NodeSize(n');
    assert Kids(n) == Kids(n');
  }

  /** Replacing one tree of a queue changes the queue's node count by the difference. */
  lemma QueueSizeReplace(q: seq<Node>, j: nat, v: Node)
    requires j < |q|
    ensures QueueSize(q[j := v]) == QueueSize(q) - Size(q[j]) + Size(v)
  {
    var front, back := q[..j], q[j + 1..];
    SplitAt(q, j, v);
    QueueAround(front, q[j], back);
    QueueAround(front, v, back);
  }

  /** Every child of a node holding a valid tree is itself valid. */
  lemma ChildValid(n: Node, c: char)
    requires Valid(n)
    ensures Valid(Child(n, c))
  {
    match Get(n.children, c)
    case None =>
    case Some(t) =>
      var i :| 0 <= i < |n.children| && n.children[i] == (c, t);
  }

  /** A node of a valid tree reached by a path is valid. */
  lemma {:induction false} NodeAtValid(n: Node, u: string)
    requires Valid(n) && NodeAt(n, u).Some?
    ensures Valid(NodeAt(n, u).value)
    decreases |u|
  {
    if u != [] {
      ChildValid(n, u[0]);
      NodeAtValid(Child(n, u[0]), u[1..]);
    }
  }

  /** Walking u and then v is walking u + v. */
  lemma {:induction false} NodeAtAppend(n: Node, u: string, v: string)
    requires NodeAt(n, u).Some?
    ensures NodeAt(n, u + v) == NodeAt(NodeAt(n, u).value, v)
    decreases |u|
  {
    if u != [] {
      assert (u + v)[0] == u[0] && (u + v)[1..] == u[1..] + v;
      NodeAtAppend(Get(n.children, u[0]).value, u[1..], v);
    } else {
      assert u + v == v;
    }
  }

  /** Every node reached from a live node is live. */
  lemma {:induction false} NodeAtLive(n: Node, u: string)
    requires Live(n) && NodeAt(n, u).Some?
    ensures Live(NodeAt(n, u).value)
    decreases |u|
  {
    if u != [] {
      var t := Get(n.children, u[0]).value;
      assert (u[0], t) in n.children;
      NodeAtLive(t, u[1..]);
    }
  }

  /** Removing one tree from a queue lowers its node count by that tree's size. */
  lemma QueueSizeRemove(q: seq<Node>, j: nat)
    requires j < |q|
    ensures QueueSize(q[..j] + q[j + 1..]) == QueueSize(q) - Size(q[j])
  {
    var front, back := q[..j], q[j + 1..];
    assert QueueSize(q) == QueueSize(front) + Size(q[j]) + QueueSize(back) by {
      SplitAt(q, j, q[j]);
      QueueAround(front, q[j], back);
    }
    QueueSizeAppend(front, back);
  }

  /** Replacing the child under c by t changes exactly the words that begin with c. */
  lemma PutChildWords(n: Node, c: char, t: Node, v: string)
    ensures PopularityOf(n.(children := Put(n.children, c, t)), v) ==
      (if v != [] && v[0] == c then PopularityOf(t, v[1..]) else PopularityOf(n, v))
  {
    if v != [] {
      var r := n.(children := Put(n.children, c, t));
      PopularityViaChild(r, v);
      PopularityViaChild(n, v);
    }
  }

  /** Replacing the child under an existing key c replaces one entry of the child queue, in place. */
  lemma PutChildKids(n: Node, c: char, t: Node)
    requires Get(n.children, c).Some?
    ensures var j := IndexOf(n.children, c).value;
      && j < |n.children| && Get(n.children, c).value == Kids(n)[j]
      && Kids(n.(children := Put(n.children, c, t))) == Kids(n)[j := t]
  {
    var j := IndexOf(n.children, c).value;
    assert Put(n.children, c, t) == n.children[j := (c, t)];
  }

  /** Replacing an existing child changes the node count by the difference in size. */
  lemma PutChildSize(n: Node, c: char, t: Node)
    requires Get(n.children, c).Some?
    ensures Size(n.(children := Put(n.children, c, t))) == Size(n) - Size(Get(n.children, c).value) + Size(t)
  {
    var r := n.(children := Put(n.children, c, t));
    var j := IndexOf(n.children, c).value;
    PutChildKids(n, c, t);
    assert Size(n) == 1 + QueueSize(Kids(n)) by {
      NodeSize(n);
    }
    assert Size(r) == 1 + QueueSize(Kids(n)[j := t]) by {
      NodeSize(r);
    }
    QueueSizeReplace(Kids(n), j, t);
  }

  /** The children left after dropping the j-th edge. */
  lemma KidsWithout(n: Node, j: nat)
    requires j < |n.children|
    ensures Kids(n.(children := n.children[..j] + n.children[j + 1..])) == Kids(n)[..j] + Kids(n)[j + 1..]
  {
    var r := n.(children := n.children[..j] + n.children[j + 1..]);
    assert forall i :: 0 <= i < |r.children| ==> r.children[i] == if i < j then n.children[i] else n.children[i + 1];
  }

  /** Cutting an existing edge removes the nodes of the subtree below it. */
  lemma CutChildSize(n: Node, c: char)
    requires Get(n.children, c).Some?
    ensures Size(n.(children := RemoveKey(n.children, c))) == Size(n) - Size(Get(n.children, c).value)
  {
    var r := n.(children := RemoveKey(n.children, c));
    var j := IndexOf(n.children, c).value;
    assert r.children == n.children[..j] + n.children[j + 1..];
    KidsWithout(n, j);
    QueueSizeRemove(Kids(n), j);
    NodeSize(n);
    NodeSize(r);
  }

  /** Appending a child adds the nodes of its subtree. */
  lemma AppendChildSize(n: Node, c: char, t: Node)
    ensures Size(n.(children := n.children + [(c, t)])) == Size(n) + Size(t)
  {
    var n' := n.(children := n.children + [(c, t)]);
    var q := Kids(n);
    assert Size(n') == 1 + QueueSize(q + [t]) by {
      NodeSize(n');
      assert Kids(n') == q + [t];
    }
    assert Size(n) == 1 + QueueSize(q) by {
      NodeSize(n);
    }
    QueueSnoc(q, t);
  }
}
