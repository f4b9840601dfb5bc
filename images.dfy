/**
 * Sets built from pairs: the images under a two-argument function of the
 * pairs drawn from two sets that a guard admits. The value builder's
 * nested loops collect such images; the lemmas here are the set algebra
 * they need, stated for any element type.
 */
module Images {
  /** The images under f of the pairs from A and B that g admits. */
  ghost function Image<T>(f: (T, T) -> T, g: (T, T) -> bool, A: set<T>, B: set<T>): set<T> {
    set a, b | a in A && b in B && g(a, b) :: f(a, b)
  }

  lemma ImageMember<T>(f: (T, T) -> T, g: (T, T) -> bool, A: set<T>, B: set<T>, a: T, b: T)
    requires a in A && b in B && g(a, b)
    ensures f(a, b) in Image(f, g, A, B)
  {
  }

  lemma ImageUnionLeft<T>(f: (T, T) -> T, g: (T, T) -> bool, A1: set<T>, A2: set<T>, B: set<T>)
    ensures Image(f, g, A1 + A2, B) == Image(f, g, A1, B) + Image(f, g, A2, B)
  {
    forall e | e in Image(f, g, A1 + A2, B)
      ensures e in Image(f, g, A1, B) + Image(f, g, A2, B)
    {
      var a, b :| a in A1 + A2 && b in B && g(a, b) && e == f(a, b);
      if a in A1 {
        ImageMember(f, g, A1, B, a, b);
      } else {
        ImageMember(f, g, A2, B, a, b);
      }
    }
  }

  lemma ImageUnionRight<T>(f: (T, T) -> T, g: (T, T) -> bool, A: set<T>, B1: set<T>, B2: set<T>)
    ensures Image(f, g, A, B1 + B2) == Image(f, g, A, B1) + Image(f, g, A, B2)
  {
    forall e | e in Image(f, g, A, B1 + B2)
      ensures e in Image(f, g, A, B1) + Image(f, g, A, B2)
    {
      var a, b :| a in A && b in B1 + B2 && g(a, b) && e == f(a, b);
      if b in B1 {
        ImageMember(f, g, A, B1, a, b);
      } else {
        ImageMember(f, g, A, B2, a, b);
      }
    }
  }

  lemma ImageSingleton<T>(f: (T, T) -> T, g: (T, T) -> bool, a: T, b: T)
    ensures Image(f, g, {a}, {b}) == if g(a, b) then {f(a, b)} else {}
  {
  }

  /** A guard that is the same for every pair keeps all of them or none. */
  lemma ImageUniform<T>(f: (T, T) -> T, g: (T, T) -> bool, h: (T, T) -> bool, A: set<T>, B: set<T>, c: bool)
    requires forall a, b | a in A && b in B :: g(a, b) == c
    requires forall a, b | a in A && b in B :: h(a, b)
    ensures Image(f, g, A, B) == if c then Image(f, h, A, B) else {}
  {
  }

  /** The guard that admits every pair. */
  function Every<T>(): (T, T) -> bool {
    (a: T, b: T) => true
  }

  /** The union of the entries of m under the given keys. */
  ghost function Members<K, T>(m: map<K, set<T>>, keys: set<K>): set<T> {
    set v, e | v in keys && v in m && e in m[v] :: e
  }

  lemma MembersNone<K, T>(m: map<K, set<T>>)
    ensures Members(m, m.Keys - m.Keys) == {}
  {
    assert m.Keys - m.Keys == {};
  }

  /** Moving one key from the keys still to visit to the visited ones adds its entry. */
  lemma MembersGrow<K, T>(m: map<K, set<T>>, all: set<K>, rest: set<K>, v: K)
    requires v in rest && rest <= all && v in m
    ensures Members(m, all - (rest - {v})) == Members(m, all - rest) + m[v]
  {
    assert all - (rest - {v}) == (all - rest) + {v};
  }
}
