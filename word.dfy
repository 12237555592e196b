/**
 * A stored word together with its popularity, and the ordering used to rank
 * predictions: a more popular word comes first.
 */
module Words {

  datatype Word = Word(word: string, popularity: int)

  function GetWord(w: Word): string
  {
    w.word
  }

  function GetPopularity(w: Word): int
  {
    w.popularity
  }

  /** The accessors give back exactly what the word was built from. */
  lemma AccessorsReturnConstructorArguments(s: string, p: int)
    ensures GetWord(Word(s, p)) == s && GetPopularity(Word(s, p)) == p
  {
  }

  /** Integer.compare: the sign of x - y, as -1, 0 or 1. */
  function IntegerCompare(x: int, y: int): (r: int)
    ensures r < 0 <==> x < y
    ensures r == 0 <==> x == y
    ensures r > 0 <==> x > y
    ensures -1 <= r <= 1
  {
    if x < y then -1 else if x == y then 0 else 1
  }

  /**
   * a.compareTo(b) compares b's popularity with a's, so a word with higher
   * popularity is "smaller" and sorts first.
   */
  function CompareTo(a: Word, b: Word): (r: int)
    ensures r < 0 <==> a.popularity > b.popularity
    ensures r > 0 <==> a.popularity < b.popularity
    ensures r == 0 <==> a.popularity == b.popularity
    ensures -1 <= r <= 1
  {
    IntegerCompare(GetPopularity(b), GetPopularity(a))
  }

  function Sign(x: int): int
  {
    if x < 0 then -1 else if x == 0 then 0 else 1
  }

  /** Swapping the arguments flips the sign of the comparison. */
  lemma CompareToAntisymmetric(a: Word, b: Word)
    ensures Sign(CompareTo(a, b)) == -Sign(CompareTo(b, a))
  {
  }

  /** "a sorts no later than b" */
  predicate RanksBefore(a: Word, b: Word)
  {
    CompareTo(a, b) <= 0
  }

  /** The ordering is a total preorder: total, reflexive and transitive. */
  lemma CompareToTotalPreorder(a: Word, b: Word, c: Word)
    ensures RanksBefore(a, b) || RanksBefore(b, a)
    ensures RanksBefore(a, a)
    ensures RanksBefore(a, b) && RanksBefore(b, c) ==> RanksBefore(a, c)
    ensures RanksBefore(a, b) && RanksBefore(b, a) <==> a.popularity == b.popularity
  {
  }
}
