/**
 * An insertion-ordered map (the source's LinkedHashMap from a character to a
 * child node), kept as a sequence of key/value pairs: the first-inserted key
 * comes first, a new key is appended, and an existing key keeps its place.
 */
module LinkedMap {
  import opened Wrappers

  /** The keys in iteration order. */
  function Keys<V>(m: seq<(char, V)>): (ks: seq<char>)
    ensures |ks| == |m|
    ensures forall i :: 0 <= i < |m| ==> ks[i] == m[i].0
  {
    seq(|m|, i requires 0 <= i < |m| => m[i].0)
  }

  /** No key occurs twice. */
  predicate DistinctKeys<V>(m: seq<(char, V)>)
  {
    forall i, j :: 0 <= i < j < |m| ==> m[i].0 != m[j].0
  }

  /** The position of key k, if it is present. */
  function IndexOf<V>(m: seq<(char, V)>, k: char): (r: Option<nat>)
    ensures r.None? <==> forall i :: 0 <= i < |m| ==> m[i].0 != k
    ensures r.Some? ==> r.value < |m| && m[r.value].0 == k
    ensures r.Some? ==> forall i :: 0 <= i < r.value ==> m[i].0 != k
  {
    if m == [] then None
    else if m[0].0 == k then Some(0)
    else match IndexOf(m[1..], k)
      case None => None
      case Some(j) => Some(j + 1)
  }

  /** containsKey */
  predicate ContainsKey<V>(m: seq<(char, V)>, k: char)
  {
    IndexOf(m, k).Some?
  }

  /** get: the value stored under k, if any. */
  function Get<V>(m: seq<(char, V)>, k: char): (r: Option<V>)
    ensures r.Some? <==> k in Keys(m)
    ensures r.Some? ==> (k, r.value) in m
  {
    match IndexOf(m, k)
    case None => None
    case Some(j) => Some(m[j].1)
  }

  /** With distinct keys, every entry is what get returns for its key. */
  lemma GetEntry<V>(m: seq<(char, V)>, i: nat)
    requires DistinctKeys(m) && i < |m|
    ensures Get(m, m[i].0) == Some(m[i].1)
  {
    IndexOfFirst(m, m[i].0, i);
  }

  /**
   * put: an existing key is given the new value in place, a new key is
   * appended after every existing one.
   */
  function Put<V>(m: seq<(char, V)>, k: char, v: V): (r: seq<(char, V)>)
    ensures Get(r, k) == Some(v)
    ensures forall k' :: k' != k ==> Get(r, k') == Get(m, k')
    ensures Keys(r) == if ContainsKey(m, k) then Keys(m) else Keys(m) + [k]
    ensures DistinctKeys(m) ==> DistinctKeys(r)
    ensures Get(m, k) == Some(v) ==> r == m
    ensures forall e :: e in r ==> e == (k, v) || e in m
  {
    match IndexOf(m, k)
    case Some(j) =>
      PutExisting(m, k, v, j);
      m[j := (k, v)]
    case None =>
      PutNew(m, k, v);
      m + [(k, v)]
  }

  /** The first position holding key k is the one IndexOf finds. */
  lemma IndexOfFirst<V>(m: seq<(char, V)>, k: char, j: nat)
    requires j < |m| && m[j].0 == k
    requires forall i :: 0 <= i < j ==> m[i].0 != k
    ensures IndexOf(m, k) == Some(j)
  {
  }

  /** Overwriting the entry of a present key. */
  lemma PutExisting<V>(m: seq<(char, V)>, k: char, v: V, j: nat)
    requires IndexOf(m, k) == Some(j)
    ensures Get(m[j := (k, v)], k) == Some(v)
    ensures forall k' :: k' != k ==> Get(m[j := (k, v)], k') == Get(m, k')
    ensures Keys(m[j := (k, v)]) == Keys(m)
    ensures DistinctKeys(m) ==> DistinctKeys(m[j := (k, v)])
    ensures Get(m, k) == Some(v) ==> m[j := (k, v)] == m
  {
    var r := m[j := (k, v)];
    IndexOfFirst(r, k, j);
    forall k' | k' != k ensures Get(r, k') == Get(m, k') {
      match IndexOf(m, k')
      case None =>
      case Some(i) => IndexOfFirst(r, k', i);
    }
  }

  /** Appending the entry of an absent key. */
  lemma PutNew<V>(m: seq<(char, V)>, k: char, v: V)
    requires IndexOf(m, k).None?
    ensures Get(m + [(k, v)], k) == Some(v)
    ensures forall k' :: k' != k ==> Get(m + [(k, v)], k') == Get(m, k')
    ensures Keys(m + [(k, v)]) == Keys(m) + [k]
    ensures DistinctKeys(m) ==> DistinctKeys(m + [(k, v)])
  {
    var r := m + [(k, v)];
    IndexOfFirst(r, k, |m|);
    forall k' | k' != k ensures Get(r, k') == Get(m, k') {
      match IndexOf(m, k')
      case None =>
      case Some(i) => IndexOfFirst(r, k', i);
    }
  }

  /** remove: the entry for k is dropped and the others keep their order. */
  function RemoveKey<V>(m: seq<(char, V)>, k: char): (r: seq<(char, V)>)
    ensures DistinctKeys(m) ==> Get(r, k) == None
    ensures DistinctKeys(m) ==> forall k' :: k' != k ==> Get(r, k') == Get(m, k')
    ensures DistinctKeys(m) ==> DistinctKeys(r)
    ensures ContainsKey(m, k) ==> |r| == |m| - 1
    ensures ContainsKey(m, k) ==>
      var j := IndexOf(m, k).value; Keys(r) == Keys(m)[..j] + Keys(m)[j + 1..]
    ensures !ContainsKey(m, k) ==> r == m
    ensures forall e :: e in r ==> e in m
  {
    match IndexOf(m, k)
    case None => m
    case Some(j) =>
      RemoveAtFacts(m, k, j);
      m[..j] + m[j + 1..]
  }

  /** Dropping the entry at j shifts every later entry down by one. */
  lemma RemoveAtIndex<T>(m: seq<T>, j: nat, i: nat)
    requires j < |m| && i < |m| - 1
    ensures (m[..j] + m[j + 1..])[i] == if i < j then m[i] else m[i + 1]
  {
  }

  /** After dropping the first entry for k, every other key is found where it was, shifted. */
  lemma RemoveAtGet<V>(m: seq<(char, V)>, k: char, j: nat, k': char)
    requires DistinctKeys(m) && IndexOf(m, k) == Some(j) && k' != k
    ensures Get(m[..j] + m[j + 1..], k') == Get(m, k')
  {
    var r := m[..j] + m[j + 1..];
    match IndexOf(m, k')
    case None =>
      forall i | 0 <= i < |r| ensures r[i].0 != k' {
        RemoveAtIndex(m, j, i);
      }
    case Some(i) =>
      var i' := if i < j then i else i - 1;
      RemoveAtIndex(m, j, i');
      forall l | 0 <= l < i' ensures r[l].0 != k' {
        RemoveAtIndex(m, j, l);
      }
      IndexOfFirst(r, k', i');
  }

  /** Dropping the entry at j drops the j-th key and keeps the others in order. */
  lemma RemoveAtKeys<V>(m: seq<(char, V)>, j: nat)
    requires j < |m|
    ensures Keys(m[..j] + m[j + 1..]) == Keys(m)[..j] + Keys(m)[j + 1..]
  {
    var r, ks := m[..j] + m[j + 1..], Keys(m);
    forall i | 0 <= i < |r| ensures Keys(r)[i] == (ks[..j] + ks[j + 1..])[i] {
      RemoveAtIndex(m, j, i);
      RemoveAtIndex(ks, j, i);
    }
  }

  lemma RemoveAtFacts<V>(m: seq<(char, V)>, k: char, j: nat)
    requires IndexOf(m, k) == Some(j)
    ensures var r := m[..j] + m[j + 1..];
      && (DistinctKeys(m) ==> Get(r, k) == None)
      && (DistinctKeys(m) ==> forall k' :: k' != k ==> Get(r, k') == Get(m, k'))
      && (DistinctKeys(m) ==> DistinctKeys(r))
      && (forall e :: e in r ==> e in m)
      && Keys(r) == Keys(m)[..j] + Keys(m)[j + 1..]
  {
    var r := m[..j] + m[j + 1..];
    forall i | 0 <= i < |r| ensures r[i] == if i < j then m[i] else m[i + 1] {
      RemoveAtIndex(m, j, i);
    }
    RemoveAtKeys(m, j);
    if DistinctKeys(m) {
      RemoveAtDistinct(m, k, j);
    }
  }

  /** With distinct keys, dropping k's entry leaves k absent and every other binding as it was. */
  lemma RemoveAtDistinct<V>(m: seq<(char, V)>, k: char, j: nat)
    requires DistinctKeys(m) && IndexOf(m, k) == Some(j)
    ensures var r := m[..j] + m[j + 1..];
      && Get(r, k) == None
      && (forall k' :: k' != k ==> Get(r, k') == Get(m, k'))
      && DistinctKeys(r)
  {
    var r := m[..j] + m[j + 1..];
    forall i | 0 <= i < |r| ensures r[i] == if i < j then m[i] else m[i + 1] {
      RemoveAtIndex(m, j, i);
    }
    assert forall i :: 0 <= i < |r| ==> r[i].0 != k;
    forall k' | k' != k ensures Get(r, k') == Get(m, k') {
      RemoveAtGet(m, k, j, k');
    }
  }
}
