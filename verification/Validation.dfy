/** Checking named channels against the channels a function requires and allows. */
module Validation {
  import opened Listing
  import opened Results

  datatype Problem<C, S> =
    | Mismatched(name: string, expected: S, got: C)
    | Unexpected(name: string)
    | Missing(name: string)

  /** `filter_map`. */
  function Collect<A, B>(xs: seq<A>, f: A -> Option<B>): seq<B> {
    if xs == [] then []
    else (match f(xs[0]) case None => [] case Some(y) => [y]) + Collect(xs[1..], f)
  }

  lemma {:induction false} CollectHas<A, B>(xs: seq<A>, f: A -> Option<B>, y: B)
    ensures y in Collect(xs, f) <==> exists i :: 0 <= i < |xs| && f(xs[i]) == Some(y)
  {
    if xs != [] {
      var rest := xs[1..];
      CollectHas(rest, f, y);
      if i :| 0 <= i < |rest| && f(rest[i]) == Some(y) {
        assert f(xs[i + 1]) == Some(y);
      }
      if i :| 0 <= i < |xs| && f(xs[i]) == Some(y) {
        if i > 0 {
          assert f(rest[i - 1]) == Some(y);
        }
      }
    }
  }

  /** `indices` are those of the elements for which there is something, in order. */
  ghost predicate Collected<A(!new), B(!new)>(xs: seq<A>, f: A -> Option<B>, indices: seq<int>, ys: seq<B>) {
    && |indices| == |ys|
    && (forall k :: 0 <= k < |indices| ==> 0 <= indices[k] < |xs| && f(xs[indices[k]]) == Some(ys[k]))
    && (forall k, l :: 0 <= k < l < |indices| ==> indices[k] < indices[l])
    && (forall i :: 0 <= i < |xs| && f(xs[i]).Some? ==> i in indices)
  }

  lemma {:induction false} CollectsInOrder<A(!new), B(!new)>(xs: seq<A>, f: A -> Option<B>) returns (indices: seq<int>)
    ensures Collected(xs, f, indices, Collect(xs, f))
  {
    indices := [];
    if xs != [] {
      var rest := xs[1..];
      var later := CollectsInOrder(rest, f);
      var shifted := seq(|later|, k requires 0 <= k < |later| => later[k] + 1);
      indices := (if f(xs[0]).Some? then [0] else []) + shifted;
      CollectedFirst(xs, f, later, shifted, indices);
    }
  }

  lemma CollectedFirst<A(!new), B(!new)>(xs: seq<A>, f: A -> Option<B>, later: seq<int>, shifted: seq<int>, indices: seq<int>)
    requires xs != [] && Collected(xs[1..], f, later, Collect(xs[1..], f))
    requires |shifted| == |later| && forall k :: 0 <= k < |later| ==> shifted[k] == later[k] + 1
    requires indices == (if f(xs[0]).Some? then [0] else []) + shifted
    ensures Collected(xs, f, indices, Collect(xs, f))
  {
    var ys, more := Collect(xs, f), Collect(xs[1..], f);
    var head := match f(xs[0]) case None => [] case Some(y) => [y];
    assert ys == head + more;
    IndicesShift(xs, f, later, more, shifted);
    if f(xs[0]).Some? {
      assert indices == [0] + shifted && ys == [f(xs[0]).value] + more;
      FirstIndex(xs, f, shifted, more, indices, ys);
    } else {
      assert indices == shifted && ys == more;
    }
  }

  /** All but the first element, seen from the whole. */
  ghost predicate CollectedFrom<A(!new), B(!new)>(xs: seq<A>, f: A -> Option<B>, from: nat, indices: seq<int>, ys: seq<B>) {
    && |indices| == |ys|
    && (forall k :: 0 <= k < |indices| ==> from <= indices[k] < |xs| && f(xs[indices[k]]) == Some(ys[k]))
    && (forall k, l :: 0 <= k < l < |indices| ==> indices[k] < indices[l])
    && (forall i :: from <= i < |xs| && f(xs[i]).Some? ==> i in indices)
  }

  lemma IndicesShift<A(!new), B(!new)>(xs: seq<A>, f: A -> Option<B>, later: seq<int>, ys: seq<B>, shifted: seq<int>)
    requires xs != [] && Collected(xs[1..], f, later, ys)
    requires |shifted| == |later| && forall k :: 0 <= k < |later| ==> shifted[k] == later[k] + 1
    ensures CollectedFrom(xs, f, 1, shifted, ys)
  {
    var rest := xs[1..];
    forall k | 0 <= k < |shifted|
      ensures 1 <= shifted[k] < |xs| && f(xs[shifted[k]]) == Some(ys[k])
    {
      assert rest[later[k]] == xs[shifted[k]];
    }
    forall k, l | 0 <= k < l < |shifted|
      ensures shifted[k] < shifted[l]
    {
      assert later[k] < later[l];
    }
    forall i | 1 <= i < |xs| && f(xs[i]).Some?
      ensures i in shifted
    {
      assert rest[i - 1] == xs[i];
      var k :| 0 <= k < |later| && later[k] == i - 1;
      assert shifted[k] == i;
    }
  }

  lemma FirstIndex<A(!new), B(!new)>(xs: seq<A>, f: A -> Option<B>, shifted: seq<int>, more: seq<B>, indices: seq<int>, ys: seq<B>)
    requires xs != [] && CollectedFrom(xs, f, 1, shifted, more) && f(xs[0]).Some?
    requires indices == [0] + shifted && ys == [f(xs[0]).value] + more
    ensures Collected(xs, f, indices, ys)
  {
    forall i | 0 <= i < |xs| && f(xs[i]).Some?
      ensures i in indices
    {
      assert i > 0 ==> i in shifted;
      assert indices[0] == 0;
    }
  }

  ghost predicate Injective<A(!new), B(!new)>(f: A -> Option<B>) {
    forall x, y :: f(x).Some? && f(x) == f(y) ==> x == y
  }

  lemma {:induction false} CollectNoDup<A(!new), B(!new)>(xs: seq<A>, f: A -> Option<B>)
    requires NoDup(xs) && Injective(f)
    ensures NoDup(Collect(xs, f))
  {
    if xs != [] {
      var rest := xs[1..];
      CollectNoDup(rest, f);
      var tail := Collect(rest, f);
      match f(xs[0]) {
        case None =>
        case Some(y) =>
          CollectHas(rest, f, y);
          forall i | 0 <= i < |rest|
            ensures f(rest[i]) != Some(y)
          {
            assert rest[i] == xs[i + 1] != xs[0];
          }
          var all := [y] + tail;
          forall i, j | 0 <= i < j < |all|
            ensures all[i] != all[j]
          {
            assert all[j] == tail[j - 1];
            assert i > 0 ==> all[i] == tail[i - 1];
          }
      }
    }
  }

  // ---------- the check ----------

  function CheckChannel<C, S>(name: string, c: C, spec: S, matches: (C, S) -> bool): Option<Problem<C, S>> {
    if matches(c, spec) then None else Some(Mismatched(name, spec, c))
  }

  function Required<C, S>(channels: map<string, C>, specs: map<string, S>, matches: (C, S) -> bool): string -> Option<Problem<C, S>> {
    (name: string) =>
      if name !in specs then None
      else if name !in channels then Some(Missing(name))
      else CheckChannel(name, channels[name], specs[name], matches)
  }

  function Optional<C, S>(channels: map<string, C>, specs: map<string, S>, matches: (C, S) -> bool): string -> Option<Problem<C, S>> {
    (name: string) => if name in specs && name in channels then CheckChannel(name, channels[name], specs[name], matches) else None
  }

  function Surplus<C, S>(required: map<string, S>, optional: map<string, S>): string -> Option<Problem<C, S>> {
    (name: string) => if name in required || name in optional then None else Some(Unexpected(name))
  }

  /** The problems, in the order in which the three maps happen to list their names. */
  function Validate<C, S>(channels: map<string, C>, required: map<string, S>, optional: map<string, S>, matches: (C, S) -> bool,
                          requiredNames: seq<string>, optionalNames: seq<string>, channelNames: seq<string>): seq<Problem<C, S>>
  {
    Collect(requiredNames, Required(channels, required, matches))
    + Collect(optionalNames, Optional(channels, optional, matches))
    + Collect(channelNames, Surplus(required, optional))
  }

  ghost predicate Names(m: set<string>, names: seq<string>) {
    NoDup(names) && forall n :: n in names <==> n in m
  }

  ghost predicate NamesOf<C, S>(channels: map<string, C>, required: map<string, S>, optional: map<string, S>,
                                requiredNames: seq<string>, optionalNames: seq<string>, channelNames: seq<string>)
  {
    Names(required.Keys, requiredNames) && Names(optional.Keys, optionalNames) && Names(channels.Keys, channelNames)
  }

  ghost predicate Fails<C, S>(name: string, expected: S, got: C, channels: map<string, C>, specs: map<string, S>, matches: (C, S) -> bool) {
    && name in specs && specs[name] == expected
    && name in channels && channels[name] == got
    && !matches(got, expected)
  }

  /** What is wrong with the channels, whatever the order of the names. */
  ghost predicate Wrong<C, S>(p: Problem<C, S>, channels: map<string, C>, required: map<string, S>, optional: map<string, S>, matches: (C, S) -> bool) {
    match p
    case Missing(name) => name in required && name !in channels
    case Unexpected(name) => name in channels && name !in required && name !in optional
    case Mismatched(name, expected, got) =>
      || Fails(name, expected, got, channels, required, matches)
      || Fails(name, expected, got, channels, optional, matches)
  }

  ghost predicate Conforms<C, S>(channels: map<string, C>, required: map<string, S>, optional: map<string, S>, matches: (C, S) -> bool) {
    && (forall n :: n in required ==> n in channels && matches(channels[n], required[n]))
    && (forall n :: n in channels ==> n in required || (n in optional && matches(channels[n], optional[n])))
    && (forall n :: n in channels && n in optional ==> matches(channels[n], optional[n]))
  }

  lemma CollectNames<B>(m: set<string>, names: seq<string>, f: string -> Option<B>, y: B)
    requires Names(m, names)
    ensures y in Collect(names, f) <==> exists n :: n in m && f(n) == Some(y)
  {
    CollectHas(names, f, y);
    if i :| 0 <= i < |names| && f(names[i]) == Some(y) {
      assert names[i] in m;
    }
    if n :| n in m && f(n) == Some(y) {
      assert n in names;
    }
  }

  lemma RequiredExactly<C, S>(channels: map<string, C>, required: map<string, S>, matches: (C, S) -> bool, names: seq<string>, p: Problem<C, S>)
    requires Names(required.Keys, names)
    ensures p in Collect(names, Required(channels, required, matches))
            <==> (p.Missing? && p.name in required && p.name !in channels)
                 || (p.Mismatched? && Fails(p.name, p.expected, p.got, channels, required, matches))
  {
    var f := Required(channels, required, matches);
    CollectNames(required.Keys, names, f, p);
    if p.Missing? && p.name in required && p.name !in channels {
      assert f(p.name) == Some(p);
    }
    if p.Mismatched? && Fails(p.name, p.expected, p.got, channels, required, matches) {
      assert f(p.name) == Some(p);
    }
  }

  lemma OptionalExactly<C, S>(channels: map<string, C>, optional: map<string, S>, matches: (C, S) -> bool, names: seq<string>, p: Problem<C, S>)
    requires Names(optional.Keys, names)
    ensures p in Collect(names, Optional(channels, optional, matches))
            <==> p.Mismatched? && Fails(p.name, p.expected, p.got, channels, optional, matches)
  {
    var f := Optional(channels, optional, matches);
    CollectNames(optional.Keys, names, f, p);
    if p.Mismatched? && Fails(p.name, p.expected, p.got, channels, optional, matches) {
      assert f(p.name) == Some(p);
    }
  }

  lemma SurplusExactly<C, S>(channels: map<string, C>, required: map<string, S>, optional: map<string, S>, names: seq<string>, p: Problem<C, S>)
    requires Names(channels.Keys, names)
    ensures p in Collect(names, Surplus(required, optional))
            <==> p.Unexpected? && p.name in channels && p.name !in required && p.name !in optional
  {
    var f: string -> Option<Problem<C, S>> := Surplus(required, optional);
    CollectNames(channels.Keys, names, f, p);
    if p.Unexpected? && p.name in channels && p.name !in required && p.name !in optional {
      assert f(p.name) == Some(p);
    }
  }

  /** Validation reports exactly what is wrong. */
  lemma ReportsExactly<C, S>(channels: map<string, C>, required: map<string, S>, optional: map<string, S>, matches: (C, S) -> bool,
                             rs: seq<string>, os: seq<string>, cs: seq<string>, p: Problem<C, S>)
    requires NamesOf(channels, required, optional, rs, os, cs)
    ensures p in Validate(channels, required, optional, matches, rs, os, cs) <==> Wrong(p, channels, required, optional, matches)
  {
    RequiredExactly(channels, required, matches, rs, p);
    OptionalExactly(channels, optional, matches, os, p);
    SurplusExactly(channels, required, optional, cs, p);
  }

  ghost predicate NothingWrong<C(!new), S(!new)>(channels: map<string, C>, required: map<string, S>, optional: map<string, S>, matches: (C, S) -> bool) {
    forall p :: !Wrong(p, channels, required, optional, matches)
  }

  lemma ConformsExactly<C(!new), S(!new)>(channels: map<string, C>, required: map<string, S>, optional: map<string, S>, matches: (C, S) -> bool)
    ensures NothingWrong(channels, required, optional, matches) <==> Conforms(channels, required, optional, matches)
  {
    if NothingWrong(channels, required, optional, matches) {
      forall n | n in required
        ensures n in channels && matches(channels[n], required[n])
      {
        assert !Wrong(Missing(n), channels, required, optional, matches);
        assert n in channels ==> !Wrong(Mismatched(n, required[n], channels[n]), channels, required, optional, matches);
      }
      forall n | n in channels
        ensures n in required || n in optional
        ensures n in optional ==> matches(channels[n], optional[n])
      {
        assert !Wrong(Unexpected(n), channels, required, optional, matches);
        assert n in optional ==> !Wrong(Mismatched(n, optional[n], channels[n]), channels, required, optional, matches);
      }
    }
  }

  /** It succeeds exactly for channels that conform, in whatever order the maps are walked. */
  lemma ValidExactly<C(!new), S(!new)>(channels: map<string, C>, required: map<string, S>, optional: map<string, S>, matches: (C, S) -> bool,
                                       rs: seq<string>, os: seq<string>, cs: seq<string>)
    requires NamesOf(channels, required, optional, rs, os, cs)
    ensures Validate(channels, required, optional, matches, rs, os, cs) == [] <==> Conforms(channels, required, optional, matches)
  {
    var v := Validate(channels, required, optional, matches, rs, os, cs);
    ConformsExactly(channels, required, optional, matches);
    forall p: Problem<C, S>
      ensures p in v <==> Wrong(p, channels, required, optional, matches)
    {
      ReportsExactly(channels, required, optional, matches, rs, os, cs, p);
    }
    if v != [] {
      assert v[0] in v;
    }
  }

  /** When no input is both required and optional, nothing is reported twice. */
  lemma ReportsOnce<C(!new), S(!new)>(channels: map<string, C>, required: map<string, S>, optional: map<string, S>, matches: (C, S) -> bool,
                                      rs: seq<string>, os: seq<string>, cs: seq<string>)
    requires NamesOf(channels, required, optional, rs, os, cs) && required.Keys !! optional.Keys
    ensures NoDup(Validate(channels, required, optional, matches, rs, os, cs))
  {
    var a := Collect(rs, Required(channels, required, matches));
    var b := Collect(os, Optional(channels, optional, matches));
    var c: seq<Problem<C, S>> := Collect(cs, Surplus(required, optional));
    CollectNoDup(rs, Required(channels, required, matches));
    CollectNoDup(os, Optional(channels, optional, matches));
    var surplus: string -> Option<Problem<C, S>> := Surplus(required, optional);
    CollectNoDup(cs, surplus);
    forall p: Problem<C, S>
      ensures !(p in a && p in b) && !(p in a && p in c) && !(p in b && p in c)
    {
      RequiredExactly(channels, required, matches, rs, p);
      OptionalExactly(channels, optional, matches, os, p);
      SurplusExactly(channels, required, optional, cs, p);
    }
    NoDupConcat(a, b);
    NoDupConcat(a + b, c);
  }

  lemma NoDupConcat<E(!new)>(s: seq<E>, t: seq<E>)
    requires NoDup(s) && NoDup(t) && forall x :: !(x in s && x in t)
    ensures NoDup(s + t)
  {
    forall i, j | 0 <= i < j < |s + t|
      ensures (s + t)[i] != (s + t)[j]
    {
      if i < |s| <= j {
        assert s[i] in s && t[j - |s|] in t;
      }
    }
  }
}
