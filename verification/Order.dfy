/** Strict orders, and the lexicographic order they induce on sequences.

Rust compares strings and vectors lexicographically; for strings the byte order
of UTF-8 is the order of code points, which is the order of Dafny's `char`.
*/
module Order {

  /** A strict total order: what `Ord` promises about `<`. */
  ghost predicate StrictTotal<T(!new)>(less: (T, T) -> bool) {
    && (forall x :: !less(x, x))
    && (forall x, y, z :: less(x, y) && less(y, z) ==> less(x, z))
    && (forall x, y :: less(x, y) || less(y, x) || x == y)
  }

  /** A strict weak order: elements may tie, and ties behave like equality. */
  ghost predicate StrictWeak<T(!new)>(before: (T, T) -> bool) {
    && (forall x :: !before(x, x))
    && (forall x, y, z :: before(x, y) && before(y, z) ==> before(x, z))
    && (forall x, y, z :: before(x, z) ==> before(x, y) || before(y, z))
  }

  predicate LexLess<T(==)>(less: (T, T) -> bool, a: seq<T>, b: seq<T>) {
    if b == [] then false
    else if a == [] then true
    else less(a[0], b[0]) || (a[0] == b[0] && LexLess(less, a[1..], b[1..]))
  }

  /** The first place where the sequences differ is `k`, and there `a` ends or has the lesser element. */
  ghost predicate DecidedAt<T(!new)>(less: (T, T) -> bool, a: seq<T>, b: seq<T>, k: int) {
    && 0 <= k <= |a| && k < |b|
    && (forall i :: 0 <= i < k ==> a[i] == b[i])
    && (k == |a| || less(a[k], b[k]))
  }

  lemma {:induction false} LexLessExactly<T(!new)>(less: (T, T) -> bool, a: seq<T>, b: seq<T>)
    ensures LexLess(less, a, b) <==> exists k :: DecidedAt(less, a, b, k)
  {
    if a == [] || b == [] {
      assert b != [] ==> DecidedAt(less, a, b, 0);
    } else {
      LexLessExactly(less, a[1..], b[1..]);
      if less(a[0], b[0]) {
        assert DecidedAt(less, a, b, 0);
      }
      if k :| DecidedAt(less, a[1..], b[1..], k) {
        assert a[0] == b[0] ==> DecidedAt(less, a, b, k + 1);
      }
      if k :| DecidedAt(less, a, b, k) {
        assert k > 0 ==> DecidedAt(less, a[1..], b[1..], k - 1);
      }
    }
  }

  lemma {:induction false} LexIrreflexive<T(!new)>(less: (T, T) -> bool, a: seq<T>)
    requires StrictTotal(less)
    ensures !LexLess(less, a, a)
  {
    if a != [] {
      LexIrreflexive(less, a[1..]);
    }
  }

  lemma {:induction false} LexTransitive<T(!new)>(less: (T, T) -> bool, a: seq<T>, b: seq<T>, c: seq<T>)
    requires StrictTotal(less)
    requires LexLess(less, a, b) && LexLess(less, b, c)
    ensures LexLess(less, a, c)
  {
    if a != [] && a[0] == b[0] && b[0] == c[0] {
      if less(a[0], a[0]) {
        assert false;
      }
      LexTransitive(less, a[1..], b[1..], c[1..]);
    }
  }

  lemma {:induction false} LexConnected<T(!new)>(less: (T, T) -> bool, a: seq<T>, b: seq<T>)
    requires StrictTotal(less)
    ensures LexLess(less, a, b) || LexLess(less, b, a) || a == b
  {
    if a != [] && b != [] && a[0] == b[0] {
      LexConnected(less, a[1..], b[1..]);
      assert a == [a[0]] + a[1..] && b == [b[0]] + b[1..];
    }
  }

  predicate CharLess(a: char, b: char) { a < b }

  lemma CharLessTotal()
    ensures StrictTotal(CharLess)
  {
  }

  /** The order of `String::cmp`, also Python's order on `str`. */
  predicate StringLess(a: string, b: string) { LexLess(CharLess, a, b) }

  /** The lesser text ends where the other goes on, or has the lesser character where they first differ. */
  lemma StringLessExactly(a: string, b: string)
    ensures StringLess(a, b)
            <==> exists k :: 0 <= k <= |a| && k < |b| && a[..k] == b[..k] && (k == |a| || a[k] < b[k])
  {
    LexLessExactly(CharLess, a, b);
    if k :| DecidedAt(CharLess, a, b, k) {
      assert a[..k] == b[..k];
    }
    if k :| 0 <= k <= |a| && k < |b| && a[..k] == b[..k] && (k == |a| || a[k] < b[k]) {
      forall i | 0 <= i < k
        ensures a[i] == b[i]
      {
        assert a[..k][i] == b[..k][i];
      }
      assert DecidedAt(CharLess, a, b, k);
    }
  }

  /** The lexicographic order of a strict total order is again one; here for strings. */
  lemma StringLessTotal()
    ensures StrictTotal(StringLess)
  {
    CharLessTotal();
    forall a: string
      ensures !StringLess(a, a)
    {
      LexIrreflexive(CharLess, a);
    }
    forall a: string, b: string, c: string | StringLess(a, b) && StringLess(b, c)
      ensures StringLess(a, c)
    {
      LexTransitive(CharLess, a, b, c);
    }
    forall a: string, b: string
      ensures StringLess(a, b) || StringLess(b, a) || a == b
    {
      LexConnected(CharLess, a, b);
    }
  }
}
