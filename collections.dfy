/**
 * Regrouping facts about sets and sequences, shared by the proofs that
 * accumulate a result piece by piece.
 */
module Collections {

  /** Adding x and then y to t adds x + y. */
  lemma UnionAssoc<T>(t: set<T>, x: set<T>, y: set<T>)
    ensures t + x + y == t + (x + y)
  {
  }

  /** Adding two groups of three sets adds all six. */
  lemma UnionAssoc6<T>(t: set<T>, x1: set<T>, x2: set<T>, x3: set<T>, x4: set<T>, x5: set<T>, x6: set<T>)
    ensures t + (x1 + x2 + x3) + (x4 + x5 + x6) == t + (x1 + x2 + x3 + x4 + x5 + x6)
  {
  }

  /** Concatenation regroups to the right. */
  lemma ConcatAssoc<T>(a: seq<T>, b: seq<T>, c: seq<T>)
    ensures (a + b) + c == a + (b + c)
  {
  }

  /** Four pieces concatenated left to right, regrouped to the right. */
  lemma ConcatAssoc4<T>(a: seq<T>, b: seq<T>, c: seq<T>, r: seq<T>)
    ensures a + b + c + r == a + (b + (c + r))
  {
  }
}
