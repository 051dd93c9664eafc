/** Concatenation. */
module Sequences {
  lemma ConcatAssociative<E>(a: seq<E>, b: seq<E>, c: seq<E>)
    ensures (a + b) + c == a + (b + c)
  {
  }

  /** Behind the same beginning, only the same is the same. */
  lemma SameAfter<E>(a: seq<E>, s: seq<E>, t: seq<E>)
    ensures a + s == a + t <==> s == t
  {
    if a + s == a + t {
      assert (a + s)[|a|..] == s && (a + t)[|a|..] == t;
    }
  }
}
