/** Merging sources that each serve only their first `n` entries.

A merge keeps one entry per key. If every source lists its entries strictly in
order, then the first `n` of the merge can be computed from the first `n` of
each source: an entry cut off by one source has `n` smaller keys before it there.
*/
module Pushdown {
  import opened Order
  import opened Listing

  /** Every list cut to the window `[offset, offset + limit)`. */
  function Windows<E>(lists: seq<seq<E>>, offset: nat, limit: nat): seq<seq<E>> {
    if lists == [] then [] else [Page(lists[0], offset, limit)] + Windows(lists[1..], offset, limit)
  }

  /** The entries competing for a key, in source order. */
  function Candidates<E, K(==)>(key: E -> K, xs: seq<E>, k: K): seq<E> {
    if xs == [] then []
    else (if key(xs[0]) == k then [xs[0]] else []) + Candidates(key, xs[1..], k)
  }

  /** Strictly ordered: no two entries of one source tie. */
  ghost predicate StrictlySorted<E(!new)>(before: (E, E) -> bool, s: seq<E>) {
    forall i, j :: 0 <= i < j < |s| ==> before(s[i], s[j])
  }

  /** `m` keeps, for each key that occurs in `xs`, one of the entries with that key. */
  ghost predicate Merged<E(!new), K(!new)>(key: E -> K, xs: seq<E>, m: map<K, E>) {
    && (forall x :: x in xs ==> key(x) in m)
    && (forall k :: k in m ==> key(m[k]) == k && m[k] in xs)
  }

  /** Entries with the same key tie in the order. */
  ghost predicate KeysTie<E(!new), K(!new)>(before: (E, E) -> bool, key: E -> K, xs: seq<E>) {
    forall x, y :: x in xs && y in xs && key(x) == key(y) ==> !before(x, y)
  }

  ghost function Ahead<E(!new)>(before: (E, E) -> bool, S: set<E>, e: E): set<E> {
    set x | x in S && before(x, e)
  }

  lemma {:induction false} CandidatesConcat<E, K>(key: E -> K, xs: seq<E>, ys: seq<E>, k: K)
    ensures Candidates(key, xs + ys, k) == Candidates(key, xs, k) + Candidates(key, ys, k)
  {
    if xs == [] {
      assert xs + ys == ys;
    } else {
      var all := xs + ys;
      var head := if key(xs[0]) == k then [xs[0]] else [];
      assert all[1..] == xs[1..] + ys && all[0] == xs[0];
      CandidatesConcat(key, xs[1..], ys, k);
      var a, b := Candidates(key, xs[1..], k), Candidates(key, ys, k);
      assert Candidates(key, xs, k) == head + a;
      assert Candidates(key, all, k) == head + (a + b);
      assert head + (a + b) == (head + a) + b;
    }
  }

  lemma {:induction false} CandidatesAre<E(!new), K(!new)>(key: E -> K, xs: seq<E>, k: K)
    ensures forall x :: x in Candidates(key, xs, k) <==> x in xs && key(x) == k
    ensures (forall x :: x in xs ==> key(x) != k) ==> Candidates(key, xs, k) == []
  {
    if xs != [] {
      CandidatesAre(key, xs[1..], k);
      assert xs == [xs[0]] + xs[1..];
    }
  }

  lemma {:induction false} FlattenMembers<E(!new)>(lists: seq<seq<E>>)
    ensures forall x :: x in Flatten(lists) <==> exists i :: 0 <= i < |lists| && x in lists[i]
  {
    if lists != [] {
      FlattenMembers(lists[1..]);
      forall x
        ensures x in Flatten(lists) <==> exists i :: 0 <= i < |lists| && x in lists[i]
      {
        if x in Flatten(lists) && x !in lists[0] {
          var rest := lists[1..];
          assert x in Flatten(rest);
          var i :| 0 <= i < |rest| && x in rest[i];
          assert x in lists[i + 1];
        }
        if i :| 0 <= i < |lists| && x in lists[i] {
          if i > 0 {
            assert x in lists[1..][i - 1];
          }
        }
      }
    }
  }

  lemma {:induction false} WindowsAt<E(!new)>(lists: seq<seq<E>>, offset: nat, limit: nat)
    ensures |Windows(lists, offset, limit)| == |lists|
    ensures forall i :: 0 <= i < |lists| ==> Windows(lists, offset, limit)[i] == Page(lists[i], offset, limit)
  {
    if lists != [] {
      WindowsAt(lists[1..], offset, limit);
    }
  }

  /** What a window serves, the full list has too. */
  lemma WindowsServeMembers<E(!new)>(lists: seq<seq<E>>, offset: nat, limit: nat)
    ensures forall x :: x in Flatten(Windows(lists, offset, limit)) ==> x in Flatten(lists)
  {
    FlattenMembers(lists);
    FlattenMembers(Windows(lists, offset, limit));
    WindowsAt(lists, offset, limit);
    forall x | x in Flatten(Windows(lists, offset, limit))
      ensures x in Flatten(lists)
    {
      var i :| 0 <= i < |lists| && x in Windows(lists, offset, limit)[i];
      assert x in lists[i];
    }
  }

  /** Every list cut to a beginning of at least `n` entries, or not at all. */
  ghost predicate Cuts<E(!new)>(lists: seq<seq<E>>, cuts: seq<seq<E>>, n: nat) {
    && |cuts| == |lists|
    && forall i :: 0 <= i < |lists| ==> cuts[i] <= lists[i] && (|cuts[i]| >= n || cuts[i] == lists[i])
  }

  lemma CutsServeMembers<E(!new)>(lists: seq<seq<E>>, cuts: seq<seq<E>>, n: nat)
    requires Cuts(lists, cuts, n)
    ensures forall x :: x in Flatten(cuts) ==> x in Flatten(lists)
  {
    FlattenMembers(lists);
    FlattenMembers(cuts);
    forall x | x in Flatten(cuts)
      ensures x in Flatten(lists)
    {
      var i :| 0 <= i < |cuts| && x in cuts[i];
      assert x in lists[i];
    }
  }

  lemma SamePrefixCandidates<E(!new), K(!new)>(key: E -> K, xs: seq<E>, cut: seq<E>, k: K)
    requires cut <= xs && forall p :: |cut| <= p < |xs| ==> key(xs[p]) != k
    ensures Candidates(key, cut, k) == Candidates(key, xs, k)
  {
    var rest := xs[|cut|..];
    assert xs == cut + rest;
    CandidatesConcat(key, cut, rest, k);
    CandidatesAre(key, rest, k);
    forall x | x in rest
      ensures key(x) != k
    {
      var p :| |cut| <= p < |xs| && xs[p] == x;
    }
  }

  lemma {:induction false} SameCandidates<E(!new), K(!new)>(key: E -> K, lists: seq<seq<E>>, cuts: seq<seq<E>>, n: nat, k: K)
    requires Cuts(lists, cuts, n)
    requires forall i, p :: 0 <= i < |lists| && 0 <= p < |lists[i]| && key(lists[i][p]) == k ==> p < n
    ensures Candidates(key, Flatten(cuts), k) == Candidates(key, Flatten(lists), k)
    decreases |lists|
  {
    if lists != [] {
      var rest, cutRest := lists[1..], cuts[1..];
      forall i, p | 0 <= i < |rest| && 0 <= p < |rest[i]| && key(rest[i][p]) == k
        ensures p < n
      {
        assert rest[i] == lists[i + 1];
      }
      SameCandidates(key, rest, cutRest, n, k);
      SamePrefixCandidates(key, lists[0], cuts[0], k);
      CandidatesConcat(key, lists[0], Flatten(rest), k);
      CandidatesConcat(key, cuts[0], Flatten(cutRest), k);
    }
  }

  /** The entries listed before a position of one source all have winners before that entry's winner. */
  lemma PositionBound<E(!new), K(!new)>(before: (E, E) -> bool, key: E -> K, m: map<K, E>, lists: seq<seq<E>>,
                                        i: nat, p: nat, e: E)
    requires StrictWeak(before) && KeysTie(before, key, Flatten(lists)) && Merged(key, Flatten(lists), m)
    requires i < |lists| && p < |lists[i]| && StrictlySorted(before, lists[i])
    requires e in Flatten(lists) && key(e) == key(lists[i][p])
    ensures p <= |Ahead(before, m.Values, e)|
  {
    FlattenMembers(lists);
    var L := lists[i];
    forall q | 0 <= q < |L|
      ensures L[q] in Flatten(lists)
    {
      assert L[q] in lists[i];
    }
    var ws := seq(p, q requires 0 <= q < p => m[key(L[q])]);
    forall q | 0 <= q < p
      ensures ws[q] in Ahead(before, m.Values, e)
    {
      assert before(L[q], L[p]);
      assert !before(L[q], ws[q]) && !before(e, L[p]) by {
        assert key(ws[q]) == key(L[q]);
      }
      assert before(ws[q], L[p]);
      assert ws[q] in m.Values;
    }
    forall q, r | 0 <= q < r < p
      ensures ws[q] != ws[r]
    {
      assert before(L[q], L[r]);
      assert key(L[q]) != key(L[r]);
      assert key(ws[q]) == key(L[q]) && key(ws[r]) == key(L[r]);
    }
    ElementsSize(ws);
    SubsetSize(Elements(ws), Ahead(before, m.Values, e));
  }

  /** A source never lists more entries than the merge has. */
  lemma ListFitsMerge<E(!new), K(!new)>(before: (E, E) -> bool, key: E -> K, m: map<K, E>, lists: seq<seq<E>>, i: nat)
    requires StrictWeak(before) && KeysTie(before, key, Flatten(lists)) && Merged(key, Flatten(lists), m)
    requires i < |lists| && StrictlySorted(before, lists[i])
    ensures |lists[i]| <= |m.Values|
  {
    if lists[i] != [] {
      FlattenMembers(lists);
      var last := lists[i][|lists[i]| - 1];
      assert last in lists[i];
      var w := m[key(last)];
      PositionBound(before, key, m, lists, i, |lists[i]| - 1, w);
      assert w in m.Values;
      SubsetSize(Ahead(before, m.Values, w), m.Values - {w});
    }
  }

  lemma TopMembersAreLow<E(!new)>(before: (E, E) -> bool, S: set<E>, n: nat, out: seq<E>, x: E)
    requires StrictWeak(before) && IsTop(before, S, n, out) && x in out
    ensures |Ahead(before, S, x)| < n
  {
    var i :| 0 <= i < |out| && out[i] == x;
    var head := out[..i];
    forall y | y in Ahead(before, S, x)
      ensures y in Elements(head)
    {
      var j :| 0 <= j < |out| && out[j] == y;
      assert j < i;
      assert head[j] == y;
    }
    ElementsSize(head);
    SubsetSize(Ahead(before, S, x), Elements(head));
  }

  /** If `n` members come before `x`, then `n` members come before `x` that are low themselves. */
  lemma LowMembersAhead<E(!new)>(before: (E, E) -> bool, S: set<E>, n: nat, x: E) returns (low: seq<E>)
    requires StrictWeak(before) && |Ahead(before, S, x)| >= n
    ensures NoDup(low) && |low| == n
    ensures forall z :: z in low ==> z in S && before(z, x) && |Ahead(before, S, z)| < n
  {
    var s := ListingExists(before, S);
    PrefixIsTop(before, S, n, s);
    ElementsSize(s);
    low := s[..Min(n, |s|)];
    SubsetSize(Ahead(before, S, x), S);
    forall z | z in low
      ensures z in S && before(z, x) && |Ahead(before, S, z)| < n
    {
      assert z in Elements(low);
      TopMembersAreLow(before, S, n, low, z);
      if !before(z, x) {
        assert Ahead(before, S, x) <= Ahead(before, S, z);
        SubsetSize(Ahead(before, S, x), Ahead(before, S, z));
      }
    }
  }

  /** The two merges agree on an entry as soon as fewer than `n` winners come before it. */
  ghost predicate LowAgree<E(!new), K(!new)>(before: (E, E) -> bool, n: nat, full: map<K, E>, cut: map<K, E>) {
    forall k :: k in full && |Ahead(before, full.Values, full[k])| < n ==> k in cut && cut[k] == full[k]
  }

  lemma LowEntriesAgree<E(!new), K(!new)>(before: (E, E) -> bool, key: E -> K, lists: seq<seq<E>>, cuts: seq<seq<E>>, n: nat,
                                          full: map<K, E>, cut: map<K, E>)
    requires Cuts(lists, cuts, n)
    requires StrictWeak(before) && KeysTie(before, key, Flatten(lists))
    requires forall i :: 0 <= i < |lists| ==> StrictlySorted(before, lists[i])
    requires Merged(key, Flatten(lists), full)
    requires forall k :: k in full && Candidates(key, Flatten(cuts), k) == Candidates(key, Flatten(lists), k)
               ==> k in cut && cut[k] == full[k]
    ensures LowAgree(before, n, full, cut)
  {
    forall k | k in full && |Ahead(before, full.Values, full[k])| < n
      ensures k in cut && cut[k] == full[k]
    {
      forall i, p | 0 <= i < |lists| && 0 <= p < |lists[i]| && key(lists[i][p]) == k
        ensures p < n
      {
        PositionBound(before, key, full, lists, i, p, full[k]);
      }
      SameCandidates(key, lists, cuts, n, k);
    }
  }

  lemma FewMeansEqual<E(!new), K(!new)>(before: (E, E) -> bool, n: nat, full: map<K, E>, cut: map<K, E>)
    requires LowAgree(before, n, full, cut) && cut.Keys <= full.Keys && |full.Values| < n
    ensures cut == full
  {
    forall k | k in full
      ensures k in cut && cut[k] == full[k]
    {
      SubsetSize(Ahead(before, full.Values, full[k]), full.Values);
    }
  }

  /** The heart of limit pushdown: both merges have the same top `n`, whichever way ties are broken. */
  lemma TopsAgree<E(!new), K(!new)>(before: (E, E) -> bool, key: E -> K, n: nat, all: seq<E>,
                                    full: map<K, E>, cut: map<K, E>, out: seq<E>)
    requires StrictWeak(before) && KeysTie(before, key, all)
    requires Merged(key, all, full)
    requires forall k :: k in cut ==> k in full && cut[k] in all && key(cut[k]) == k
    requires LowAgree(before, n, full, cut)
    ensures IsTop(before, full.Values, n, out) <==> IsTop(before, cut.Values, n, out)
  {
    if |full.Values| < n {
      FewMeansEqual(before, n, full, cut);
    } else {
      if IsTop(before, full.Values, n, out) {
        FullTopIsCutTop(before, key, n, all, full, cut, out);
      }
      if IsTop(before, cut.Values, n, out) {
        CutTopIsFullTop(before, key, n, all, full, cut, out);
      }
    }
  }

  lemma FullTopIsCutTop<E(!new), K(!new)>(before: (E, E) -> bool, key: E -> K, n: nat, all: seq<E>,
                                          full: map<K, E>, cut: map<K, E>, out: seq<E>)
    requires StrictWeak(before) && KeysTie(before, key, all)
    requires Merged(key, all, full)
    requires forall k :: k in cut ==> k in full && cut[k] in all && key(cut[k]) == k
    requires LowAgree(before, n, full, cut) && |full.Values| >= n
    requires IsTop(before, full.Values, n, out)
    ensures IsTop(before, cut.Values, n, out)
  {
    forall x | x in Elements(out)
      ensures x in cut.Values && full[key(x)] == x && cut[key(x)] == x
    {
      TopMembersAreLow(before, full.Values, n, out, x);
      var k :| k in full && full[k] == x;
      assert key(x) == k;
    }
    ElementsSize(out);
    SubsetSize(Elements(out), cut.Values);
    forall e, x | e in cut.Values && e !in out && x in out
      ensures !before(e, x)
    {
      var k :| k in cut && cut[k] == e;
      var w := full[k];
      assert !before(e, w) && !before(w, e);
      assert before(e, x) ==> before(w, x);
      assert w in full.Values;
      assert w in out ==> w in Elements(out);
    }
  }

  lemma CutTopIsFullTop<E(!new), K(!new)>(before: (E, E) -> bool, key: E -> K, n: nat, all: seq<E>,
                                          full: map<K, E>, cut: map<K, E>, out: seq<E>)
    requires StrictWeak(before) && KeysTie(before, key, all)
    requires Merged(key, all, full)
    requires forall k :: k in cut ==> k in full && cut[k] in all && key(cut[k]) == k
    requires LowAgree(before, n, full, cut) && |full.Values| >= n
    requires IsTop(before, cut.Values, n, out)
    ensures IsTop(before, full.Values, n, out)
  {
    forall x | x in Elements(out)
      ensures x in full.Values && |Ahead(before, full.Values, x)| < n
    {
      TopMembersAreLow(before, cut.Values, n, out, x);
      var k :| k in cut && cut[k] == x;
      var w := full[k];
      if |Ahead(before, full.Values, w)| >= n {
        var low := LowMembersAhead(before, full.Values, n, w);
        forall z | z in Elements(low)
          ensures z in Ahead(before, cut.Values, x)
        {
          var j :| j in full && full[j] == z;
          assert cut[j] == z;
          assert !before(x, w);
        }
        ElementsSize(low);
        SubsetSize(Elements(low), Ahead(before, cut.Values, x));
      }
    }
    CutHoldsTop(before, n, full, cut);
    forall e, x | e in full.Values && e !in out && x in out
      ensures !before(e, x)
    {
      assert x in Elements(out);
      var k :| k in full && full[k] == e;
      if before(e, x) {
        SubsetSize(Ahead(before, full.Values, e), Ahead(before, full.Values, x));
      }
    }
  }

  lemma CutHoldsTop<E(!new), K(!new)>(before: (E, E) -> bool, n: nat, full: map<K, E>, cut: map<K, E>)
    requires StrictWeak(before) && LowAgree(before, n, full, cut) && |full.Values| >= n
    ensures |cut.Values| >= n
  {
    var s := ListingExists(before, full.Values);
    PrefixIsTop(before, full.Values, n, s);
    ElementsSize(s);
    var top := s[..Min(n, |s|)];
    forall x | x in Elements(top)
      ensures x in cut.Values
    {
      TopMembersAreLow(before, full.Values, n, top, x);
      var k :| k in full && full[k] == x;
      assert cut[k] == x;
    }
    ElementsSize(top);
    SubsetSize(Elements(top), cut.Values);
  }
}
