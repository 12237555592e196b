/**
 * insert and remove lower-case their argument, so no edge of a tree built by
 * them is a capital letter, and every word such a tree holds is lower case.
 * contains does not lower-case; these facts say what it then finds.
 */
module CaseFacts {
  import opened Wrappers
  import opened LinkedMap
  import opened Trie
  import RemoveFacts

  /** Lower-casing twice is lower-casing once. */
  lemma LowerIdempotent(s: string)
    ensures Lower(Lower(s)) == Lower(s)
  {
  }

  /** The child under c of a tree without capitals has none either. */
  lemma ChildNoCapitals(n: Node, c: char)
    requires NoCapitals(n)
    ensures NoCapitals(Child(n, c))
  {
    match Get(n.children, c)
    case None =>
    case Some(t) =>
      var i :| 0 <= i < |n.children| && n.children[i] == (c, t);
  }

  /** A node whose every entry is one of n's, or the pair (c, t), has no capitals when neither has. */
  lemma EntriesNoCapitals(n: Node, r: Node, c: char, t: Node)
    requires NoCapitals(n) && !('A' <= c <= 'Z') && NoCapitals(t)
    requires forall e :: e in r.children ==> e == (c, t) || e in n.children
    ensures NoCapitals(r)
  {
    forall i | 0 <= i < |r.children|
      ensures !('A' <= r.children[i].0 <= 'Z') && NoCapitals(r.children[i].1)
    {
      assert r.children[i] in r.children;
      if r.children[i] != (c, t) {
        var j :| 0 <= j < |n.children| && n.children[j] == r.children[i];
      }
    }
  }

  /** insert on a lower-case word adds no capital edge. */
  lemma {:induction false} InsertKeepsNoCapitals(n: Node, w: string, p: int)
    requires NoCapitals(n) && LowerCase(w)
    ensures NoCapitals(InsertPath(n, w, p))
    decreases |w|
  {
    if w != [] {
      var c := w[0];
      assert LowerCase(w[1..]) by {
        forall i | 0 <= i < |w[1..]| ensures !('A' <= w[1..][i] <= 'Z') {
          assert w[1..][i] == w[i + 1];
        }
      }
      ChildNoCapitals(n, c);
      InsertKeepsNoCapitals(Child(n, c), w[1..], p);
      EntriesNoCapitals(n, InsertPath(n, w, p), c, InsertPath(Child(n, c), w[1..], p));
    }
  }

  /** remove only drops edges and rebuilds nodes on the path, so it adds no capital edge. */
  lemma {:induction false} RemoveKeepsNoCapitals(n: Node, w: string)
    requires NoCapitals(n)
    ensures NoCapitals(RemovePath(n, w).0)
    decreases |w|
  {
    if w != [] {
      match Get(n.children, w[0])
      case None =>
      case Some(next) =>
        ChildNoCapitals(n, w[0]);
        if MaxBranching(next) <= 1 {
          EntriesNoCapitals(n, RemovePath(n, w).0, w[0], next);
        } else {
          RemoveKeepsNoCapitals(next, w[1..]);
          EntriesNoCapitals(n, RemovePath(n, w).0, w[0], RemovePath(next, w[1..]).0);
        }
    }
  }

  /** In a tree without capital edges, every path that exists spells a lower-case string. */
  lemma {:induction false} PathIsLowerCase(n: Node, u: string)
    requires NoCapitals(n) && NodeAt(n, u).Some?
    ensures LowerCase(u) && Lower(u) == u
    decreases |u|
  {
    if u != [] {
      var t := Get(n.children, u[0]).value;
      var i :| 0 <= i < |n.children| && n.children[i] == (u[0], t);
      PathIsLowerCase(t, u[1..]);
      forall k | 0 <= k < |u| ensures !('A' <= u[k] <= 'Z') {
        if k > 0 {
          assert u[k] == u[1..][k - 1];
        }
      }
    }
  }

  /** A word holding a capital letter is never contained in a tree without capital edges. */
  lemma ContainsOnlyLowerCase(n: Node, w: string)
    requires NoCapitals(n) && ContainsWord(n, w)
    ensures Lower(w) == w
  {
    PathIsLowerCase(n, w);
  }

  /**
   * After remove(w), which lower-cases w, the tree contains w in none of its
   * spellings: neither the lower-cased word nor the argument as given.
   */
  lemma RemoveClearsRawWord(n: Node, w: string)
    requires Valid(n) && NoCapitals(n)
    ensures !ContainsWord(RemovePath(n, Lower(w)).0, w)
    ensures !ContainsWord(RemovePath(n, Lower(w)).0, Lower(w))
  {
    var r := RemovePath(n, Lower(w)).0;
    RemoveFacts.RemoveClearsWord(n, Lower(w));
    RemoveKeepsNoCapitals(n, Lower(w));
    if NodeAt(r, w).Some? {
      PathIsLowerCase(r, w);
    }
  }
}
