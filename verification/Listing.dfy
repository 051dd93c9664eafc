/** Sorted listings of a set and the pages cut from them.

Library sorts are unstable and hash maps iterate in any order, so a listing is
specified as a relation: any duplicate-free enumeration of the set in order.
*/
module Listing {
  import opened Order

  function Min(a: nat, b: nat): nat { if a <= b then a else b }

  ghost predicate NoDup<E(!new)>(s: seq<E>) {
    forall i, j :: 0 <= i < j < |s| ==> s[i] != s[j]
  }

  ghost function Elements<E(!new)>(s: seq<E>): set<E> { set x | x in s }

  ghost predicate Sorted<E(!new)>(before: (E, E) -> bool, s: seq<E>) {
    forall i, j :: 0 <= i < j < |s| ==> !before(s[j], s[i])
  }

  /** No two members tie, so there is only one way to list them. */
  ghost predicate NoTies<E(!new)>(before: (E, E) -> bool, S: set<E>) {
    forall x, y :: x in S && y in S && x != y ==> before(x, y) || before(y, x)
  }

  /** `s` is a possible outcome of collecting `S` in any order and sorting it. */
  ghost predicate IsListing<E(!new)>(before: (E, E) -> bool, S: set<E>, s: seq<E>) {
    NoDup(s) && Elements(s) == S && Sorted(before, s)
  }

  /** `out` holds `n` members of `S` (or all of them) in order, and nobody left out
      belongs before one of them. */
  ghost predicate IsTop<E(!new)>(before: (E, E) -> bool, S: set<E>, n: nat, out: seq<E>) {
    && NoDup(out)
    && Elements(out) <= S
    && Sorted(before, out)
    && |out| == Min(n, |S|)
    && forall e, x :: e in S && e !in out && x in out ==> !before(e, x)
  }

  /** `skip(offset).take(limit)`. */
  function Page<E>(s: seq<E>, offset: nat, limit: nat): (r: seq<E>) {
    if offset >= |s| then [] else s[offset..offset + Min(limit, |s| - offset)]
  }

  /** The entries from `offset` on, as many as there are up to the limit. */
  lemma PageShows<E(!new)>(s: seq<E>, offset: nat, limit: nat)
    ensures |Page(s, offset, limit)| == if offset >= |s| then 0 else Min(limit, |s| - offset)
    ensures forall i :: 0 <= i < |Page(s, offset, limit)| ==> Page(s, offset, limit)[i] == s[offset + i]
    ensures forall x :: x in Page(s, offset, limit) ==> x in s
  {
  }

  /** One page of some listing of `S`. */
  ghost predicate IsPage<E(!new)>(before: (E, E) -> bool, S: set<E>, offset: nat, limit: nat, out: seq<E>) {
    exists s :: IsListing(before, S, s) && out == Page(s, offset, limit)
  }

  function Reversed<E>(s: seq<E>): (r: seq<E>)
    ensures |r| == |s|
    ensures forall i :: 0 <= i < |s| ==> r[i] == s[|s| - 1 - i]
  {
    if s == [] then [] else Reversed(s[1..]) + [s[0]]
  }

  function Flip<E>(before: (E, E) -> bool): (E, E) -> bool { (x, y) => before(y, x) }

  /** The order a listing is produced in: `reverse` flips it. */
  function Direction<E>(before: (E, E) -> bool, reverse: bool): (E, E) -> bool {
    if reverse then Flip(before) else before
  }

  lemma DirectionWeak<E(!new)>(before: (E, E) -> bool, reverse: bool)
    requires StrictWeak(before)
    ensures StrictWeak(Direction(before, reverse))
  {
  }

  /** Sorting forwards and then reversing lists in the flipped order. */
  lemma ReversedListing<E(!new)>(before: (E, E) -> bool, S: set<E>, s: seq<E>)
    requires IsListing(before, S, s)
    ensures IsListing(Flip(before), S, Reversed(s))
  {
    var r := Reversed(s);
    forall x
      ensures x in r <==> x in s
    {
      if x in s {
        var i :| 0 <= i < |s| && s[i] == x;
        assert r[|s| - 1 - i] == x;
      }
    }
    assert Elements(r) == S;
  }

  // ---------- sorting ----------

  function Insert<E>(before: (E, E) -> bool, x: E, s: seq<E>): seq<E> {
    if s == [] || before(x, s[0]) then [x] + s else [s[0]] + Insert(before, x, s[1..])
  }

  function SortBy<E>(before: (E, E) -> bool, s: seq<E>): seq<E> {
    if s == [] then [] else Insert(before, s[0], SortBy(before, s[1..]))
  }

  lemma {:induction false} InsertSorts<E(!new)>(before: (E, E) -> bool, x: E, s: seq<E>)
    requires StrictWeak(before) && Sorted(before, s) && NoDup(s) && x !in s
    ensures IsListing(before, Elements(s) + {x}, Insert(before, x, s))
  {
    var r := Insert(before, x, s);
    if s == [] || before(x, s[0]) {
      assert r == [x] + s;
      forall i, j | 0 <= i < j < |r|
        ensures !before(r[j], r[i]) && r[i] != r[j]
      {
        if i == 0 {
          assert r[j] == s[j - 1] && r[j] in s;
        }
      }
    } else {
      InsertSorts(before, x, s[1..]);
      var t := Insert(before, x, s[1..]);
      assert r == [s[0]] + t;
      assert s == [s[0]] + s[1..];
      forall i, j | 0 <= i < j < |r|
        ensures !before(r[j], r[i]) && r[i] != r[j]
      {
        if i == 0 {
          assert r[j] in Elements(t);
        }
      }
      assert Elements(r) == Elements(s) + {x} by {
        assert Elements(r) == {s[0]} + Elements(t);
        assert Elements(s) == {s[0]} + Elements(s[1..]);
      }
    }
  }

  /** Insertion sort yields one of the listings of its input. */
  lemma {:induction false} SortByLists<E(!new)>(before: (E, E) -> bool, s: seq<E>)
    requires StrictWeak(before) && NoDup(s)
    ensures IsListing(before, Elements(s), SortBy(before, s))
  {
    if s != [] {
      assert s == [s[0]] + s[1..];
      SortByLists(before, s[1..]);
      assert s[0] !in Elements(s[1..]);
      InsertSorts(before, s[0], SortBy(before, s[1..]));
      assert Elements(s) == {s[0]} + Elements(s[1..]);
    }
  }

  lemma {:induction false} EnumerationExists<E(!new)>(S: set<E>) returns (s: seq<E>)
    ensures NoDup(s) && Elements(s) == S
    decreases S
  {
    s := [];
    if S != {} {
      var x :| x in S;
      var t := EnumerationExists(S - {x});
      s := [x] + t;
      assert Elements(s) == {x} + Elements(t);
      assert x !in Elements(t);
    }
  }

  /** Whatever the set, a listing of it exists. */
  lemma ListingExists<E(!new)>(before: (E, E) -> bool, S: set<E>) returns (s: seq<E>)
    requires StrictWeak(before)
    ensures IsListing(before, S, s)
  {
    var t := EnumerationExists(S);
    SortByLists(before, t);
    s := SortBy(before, t);
  }

  /** Drains a set in whatever order it yields its members, as iterating a hash map does. */
  method Drain<E(!new,==)>(S: set<E>) returns (s: seq<E>)
    ensures NoDup(s) && Elements(s) == S
  {
    var rest := S;
    s := [];
    while rest != {}
      invariant NoDup(s) && rest !! Elements(s) && rest + Elements(s) == S
      decreases rest
    {
      var x :| x in rest;
      rest := rest - {x};
      assert x !in Elements(s);
      assert Elements(s + [x]) == Elements(s) + {x};
      s := s + [x];
    }
  }

  // ---------- sizes ----------

  lemma {:induction false} ElementsSize<E(!new)>(s: seq<E>)
    ensures |Elements(s)| <= |s|
    ensures NoDup(s) ==> |Elements(s)| == |s|
  {
    if s != [] {
      assert s == [s[0]] + s[1..];
      assert Elements(s) == {s[0]} + Elements(s[1..]);
      ElementsSize(s[1..]);
      if NoDup(s) {
        assert s[0] !in Elements(s[1..]);
      }
    }
  }

  lemma {:induction false} SubsetSize<E>(A: set<E>, B: set<E>)
    requires A <= B
    ensures |A| <= |B|
    ensures |A| == |B| ==> A == B
  {
    assert |B - A| == |B| - |A|;
  }

  // ---------- uniqueness and prefixes ----------

  /** Without ties the listing is determined by the set alone. */
  lemma {:induction false} ListingUnique<E(!new)>(before: (E, E) -> bool, S: set<E>, s: seq<E>, t: seq<E>)
    requires StrictWeak(before) && NoTies(before, S)
    requires IsListing(before, S, s) && IsListing(before, S, t)
    ensures s == t
    decreases |s|
  {
    ElementsSize(s);
    ElementsSize(t);
    if s != [] {
      assert s[0] in Elements(t) && t[0] in Elements(s);
      assert s[0] == t[0];
      assert s == [s[0]] + s[1..] && t == [t[0]] + t[1..];
      assert Elements(s[1..]) == S - {s[0]};
      assert Elements(t[1..]) == S - {s[0]};
      ListingUnique(before, S - {s[0]}, s[1..], t[1..]);
    }
  }

  /** The first `n` of a listing are a top `n`. */
  lemma PrefixIsTop<E(!new)>(before: (E, E) -> bool, S: set<E>, n: nat, s: seq<E>)
    requires IsListing(before, S, s)
    ensures IsTop(before, S, n, s[..Min(n, |s|)])
  {
    ElementsSize(s);
    var out := s[..Min(n, |s|)];
    forall e, x | e in S && e !in out && x in out
      ensures !before(e, x)
    {
      var j :| 0 <= j < |s| && s[j] == e;
      var i :| 0 <= i < |out| && out[i] == x;
      assert forall k :: 0 <= k < |out| ==> s[k] == out[k];
    }
  }

  /** And every top `n` is the first `n` of some listing. */
  lemma TopIsPrefix<E(!new)>(before: (E, E) -> bool, S: set<E>, n: nat, out: seq<E>) returns (s: seq<E>)
    requires StrictWeak(before) && IsTop(before, S, n, out)
    ensures IsListing(before, S, s) && out == s[..Min(n, |s|)]
  {
    var rest := ListingExists(before, S - Elements(out));
    s := out + rest;
    assert Elements(s) == S by {
      assert Elements(s) == Elements(out) + Elements(rest);
    }
    forall i, j | 0 <= i < j < |s|
      ensures !before(s[j], s[i]) && s[i] != s[j]
    {
      if i < |out| <= j {
        assert s[j] == rest[j - |out|];
        assert s[j] in Elements(rest) && s[i] in Elements(out);
      }
    }
    ElementsSize(s);
  }

  /** Page 0 of size `n` and top `n` are the same notion. */
  lemma FirstPageIsTop<E(!new)>(before: (E, E) -> bool, S: set<E>, n: nat, out: seq<E>)
    requires StrictWeak(before)
    ensures IsPage(before, S, 0, n, out) <==> IsTop(before, S, n, out)
  {
    if IsPage(before, S, 0, n, out) {
      var s :| IsListing(before, S, s) && out == Page(s, 0, n);
      PrefixIsTop(before, S, n, s);
      assert out == s[..Min(n, |s|)];
    }
    if IsTop(before, S, n, out) {
      var s := TopIsPrefix(before, S, n, out);
      assert out == Page(s, 0, n);
    }
  }

  // ---------- paging ----------

  function Flatten<E>(lists: seq<seq<E>>): seq<E> {
    if lists == [] then [] else lists[0] + Flatten(lists[1..])
  }

  lemma {:induction false} FlattenAppend<E>(lists: seq<seq<E>>, last: seq<E>)
    ensures Flatten(lists + [last]) == Flatten(lists) + last
  {
    if lists == [] {
      assert [last][1..] == [];
    } else {
      assert (lists + [last])[1..] == lists[1..] + [last];
      FlattenAppend(lists[1..], last);
    }
  }

  /** The pages at offsets 0, limit, 2*limit, ... one after the other. */
  function Pages<E>(s: seq<E>, limit: nat, count: nat): seq<E> {
    if count == 0 then [] else Pages(s, limit, count - 1) + Page(s, (count - 1) * limit, limit)
  }

  lemma PageAppends<E>(s: seq<E>, offset: nat, limit: nat)
    ensures s[..Min(offset, |s|)] + Page(s, offset, limit) == s[..Min(offset + limit, |s|)]
  {
  }

  /** Reading page after page reads the listing from the start, and enough pages read all of it. */
  lemma {:induction false} PagesConcatenate<E>(s: seq<E>, limit: nat, count: nat)
    ensures Pages(s, limit, count) == s[..Min(count * limit, |s|)]
    ensures count * limit >= |s| ==> Pages(s, limit, count) == s
  {
    if count > 0 {
      PagesConcatenate(s, limit, count - 1);
      PageAppends(s, (count - 1) * limit, limit);
      assert count * limit == (count - 1) * limit + limit;
    }
  }
}
