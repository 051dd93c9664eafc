/** The typed contents of a channel and the arithmetic of its cursors. */
module ChannelData {
  import opened Results

  const WORD := 0x1_0000_0000_0000_0000
  const HALF := 0x8000_0000_0000_0000

  /** A float is its bit pattern. */
  datatype TypedData =
    | Strings(strings: seq<string>)
    | Integers(integers: seq<int>)
    | Floats(floats: seq<bv64>)
    | Booleans(booleans: seq<bool>)
    | Bytes(bytes: seq<bv8>)
    | Null

  datatype Kind = StringKind | IntKind | FloatKind | BoolKind | BytesKind | NullKind

  function KindOf(d: TypedData): Kind {
    match d
    case Strings(_) => StringKind
    case Integers(_) => IntKind
    case Floats(_) => FloatKind
    case Booleans(_) => BoolKind
    case Bytes(_) => BytesKind
    case Null => NullKind
  }

  function Len(d: TypedData): nat {
    match d
    case Strings(s) => |s|
    case Integers(s) => |s|
    case Floats(s) => |s|
    case Booleans(s) => |s|
    case Bytes(s) => |s|
    case Null => 0
  }

  function Extend(d: TypedData, v: TypedData): TypedData
    requires KindOf(d) == KindOf(v)
  {
    match (d, v)
    case (Strings(s), Strings(t)) => Strings(s + t)
    case (Integers(s), Integers(t)) => Integers(s + t)
    case (Floats(s), Floats(t)) => Floats(s + t)
    case (Booleans(s), Booleans(t)) => Booleans(s + t)
    case (Bytes(s), Bytes(t)) => Bytes(s + t)
    case (Null, _) => Null
  }

  /** The elements from `lo` up to `hi`. */
  function Slice(d: TypedData, lo: nat, hi: nat): TypedData
    requires lo <= hi <= Len(d)
  {
    match d
    case Strings(s) => Strings(s[lo..hi])
    case Integers(s) => Integers(s[lo..hi])
    case Floats(s) => Floats(s[lo..hi])
    case Booleans(s) => Booleans(s[lo..hi])
    case Bytes(s) => Bytes(s[lo..hi])
    case Null => Null
  }

  /** `u` has the elements of `s`, and those of `t` after them. */
  ghost predicate Joins<E(!new)>(s: seq<E>, t: seq<E>, u: seq<E>) {
    && |u| == |s| + |t|
    && (forall i :: 0 <= i < |s| ==> u[i] == s[i])
    && (forall i :: 0 <= i < |t| ==> u[|s| + i] == t[i])
  }

  /** `later` has the elements of `d`, each at its place, and then those of `v` in order. */
  ghost predicate Appended(d: TypedData, v: TypedData, later: TypedData) {
    match (d, v, later)
    case (Strings(s), Strings(t), Strings(u)) => Joins(s, t, u)
    case (Integers(s), Integers(t), Integers(u)) => Joins(s, t, u)
    case (Floats(s), Floats(t), Floats(u)) => Joins(s, t, u)
    case (Booleans(s), Booleans(t), Booleans(u)) => Joins(s, t, u)
    case (Bytes(s), Bytes(t), Bytes(u)) => Joins(s, t, u)
    case (Null, Null, Null) => true
    case _ => false
  }

  lemma JoinsExactly<E(!new)>(s: seq<E>, t: seq<E>, u: seq<E>)
    ensures Joins(s, t, u) <==> u == s + t
  {
    if Joins(s, t, u) {
      forall i | 0 <= i < |u|
        ensures u[i] == (s + t)[i]
      {
        assert i >= |s| ==> u[|s| + (i - |s|)] == t[i - |s|];
      }
    }
  }

  /** Extending appends, and nothing else does. */
  lemma ExtendAppends(d: TypedData, v: TypedData, later: TypedData)
    requires KindOf(d) == KindOf(v)
    ensures Appended(d, v, later) <==> later == Extend(d, v)
  {
    match (d, v, later)
    case (Strings(s), Strings(t), Strings(u)) => JoinsExactly(s, t, u);
    case (Integers(s), Integers(t), Integers(u)) => JoinsExactly(s, t, u);
    case (Floats(s), Floats(t), Floats(u)) => JoinsExactly(s, t, u);
    case (Booleans(s), Booleans(t), Booleans(u)) => JoinsExactly(s, t, u);
    case (Bytes(s), Bytes(t), Bytes(u)) => JoinsExactly(s, t, u);
    case _ =>
  }

  /** `part` has the elements of `s` from `lo` up to `hi`. */
  ghost predicate Cut<E(!new)>(s: seq<E>, lo: nat, hi: nat, part: seq<E>) {
    lo <= hi <= |s| && |part| == hi - lo && forall i :: 0 <= i < |part| ==> part[i] == s[lo + i]
  }

  ghost predicate Sliced(d: TypedData, lo: nat, hi: nat, part: TypedData) {
    match (d, part)
    case (Strings(s), Strings(t)) => Cut(s, lo, hi, t)
    case (Integers(s), Integers(t)) => Cut(s, lo, hi, t)
    case (Floats(s), Floats(t)) => Cut(s, lo, hi, t)
    case (Booleans(s), Booleans(t)) => Cut(s, lo, hi, t)
    case (Bytes(s), Bytes(t)) => Cut(s, lo, hi, t)
    case (Null, Null) => true
    case _ => false
  }

  /** A slice has those elements, and nothing else is one. */
  lemma SliceShows(d: TypedData, lo: nat, hi: nat, part: TypedData)
    requires lo <= hi <= Len(d)
    ensures Sliced(d, lo, hi, part) <==> part == Slice(d, lo, hi)
    ensures Len(Slice(d, lo, hi)) == hi - lo
  {
  }

  /** `later` is `d` or `d` with elements after it. */
  ghost predicate GrownTo(d: TypedData, later: TypedData) {
    exists v :: KindOf(v) == KindOf(d) && later == Extend(d, v)
  }

  lemma ExtendGrows(d: TypedData, v: TypedData)
    requires KindOf(d) == KindOf(v)
    ensures GrownTo(d, Extend(d, v)) && KindOf(Extend(d, v)) == KindOf(d)
    ensures Len(Extend(d, v)) == Len(d) + Len(v)
    ensures Len(v) == 0 ==> Extend(d, v) == d
    ensures Extend(d, v) == d ==> Len(v) == 0
  {
  }

  lemma GrownToItself(d: TypedData)
    ensures GrownTo(d, d)
  {
    var none := Slice(d, 0, 0);
    assert Extend(d, none) == d;
  }

  lemma ExtendTwice(a: TypedData, v: TypedData, w: TypedData)
    requires KindOf(a) == KindOf(v) == KindOf(w)
    ensures Extend(Extend(a, v), w) == Extend(a, Extend(v, w))
  {
  }

  lemma GrownTransitive(a: TypedData, b: TypedData, c: TypedData)
    requires GrownTo(a, b) && GrownTo(b, c)
    ensures GrownTo(a, c)
  {
    var v :| KindOf(v) == KindOf(a) && b == Extend(a, v);
    var w :| KindOf(w) == KindOf(b) && c == Extend(b, w);
    ExtendTwice(a, v, w);
  }

  /** A slice of a log reads the same in every log it grows to. */
  lemma SlicesStay(d: TypedData, later: TypedData, lo: nat, hi: nat)
    requires GrownTo(d, later) && lo <= hi <= Len(d)
    ensures KindOf(later) == KindOf(d) && Len(d) <= Len(later)
    ensures Slice(later, lo, hi) == Slice(d, lo, hi)
  {
    var v :| KindOf(v) == KindOf(d) && later == Extend(d, v);
  }

  lemma GrownLen(d: TypedData, later: TypedData)
    requires GrownTo(d, later)
    ensures KindOf(later) == KindOf(d) && Len(d) <= Len(later)
  {
    SlicesStay(d, later, 0, 0);
  }

  // ---------- the cursor ----------

  function Clamp(x: int, hi: nat): (r: nat)
    ensures r <= hi
    ensures 0 <= x <= hi ==> r == x
  {
    if x < 0 then 0 else if x > hi then hi else x
  }

  /** Where a read of `size` elements moves a cursor: machine addition, then the clamp. */
  function NextPos(pos: nat, size: nat, len: nat): nat {
    Clamp((pos + size) % WORD, len)
  }

  /** A read moves the cursor forward exactly if the addition does not wrap. */
  lemma ReadsForwardExactly(pos: nat, size: nat, len: nat)
    requires pos <= len < HALF && size < WORD
    ensures pos <= NextPos(pos, size, len) <==> pos + size < 0x1_0000_0000_0000_0000
    ensures pos + size < 0x1_0000_0000_0000_0000 ==> NextPos(pos, size, len) == if pos + size <= len then pos + size else len
  {
    if pos + size >= WORD {
      assert (pos + size) % WORD == pos + size - WORD;
    }
  }

  /** The answer of a poll that moved the cursor from `lo` to `hi`: where the view begins, and where it
      ends if not at the end of the log; nothing if the poll is pending. */
  function Answer(lo: nat, hi: nat, size: nat, closed: bool): Option<(nat, Option<nat>)> {
    if (hi - lo) % WORD >= size then Some((lo, Some((lo + size) % WORD)))
    else if closed then Some((lo, None))
    else None
  }

  /** An answer is exactly the window the cursor moved over: the whole of the read, or what is left of a
      closed log. */
  lemma AnswersShowTheWindow(lo: nat, size: nat, len: nat, closed: bool)
    requires lo <= len < HALF && lo + size < WORD
    ensures var hi := NextPos(lo, size, len);
            match Answer(lo, hi, size, closed)
            case Some((start, Some(end))) => start == lo && end == hi == lo + size
            case Some((start, None)) => start == lo && hi == len < lo + size && closed
            case None => hi == len < lo + size && !closed
  {
    ReadsForwardExactly(lo, size, len);
  }

  datatype SeekFrom = FromStart(offset: nat) | FromEnd(delta: int) | FromCurrent(delta: int)

  /** Two's complement addition of 64-bit integers. */
  function AddI64(a: int, b: int): int
    requires -HALF <= a < HALF && -HALF <= b < HALF
  {
    if a + b >= HALF then a + b - WORD else if a + b < -HALF then a + b + WORD else a + b
  }

  predicate SeekFits(seek: SeekFrom) {
    match seek
    case FromStart(o) => o < WORD
    case FromEnd(d) => -HALF <= d < HALF
    case FromCurrent(d) => -HALF <= d < HALF
  }

  /** Where a seek moves a cursor, in machine arithmetic. */
  function SeekTarget(seek: SeekFrom, pos: nat, len: nat): (r: nat)
    requires SeekFits(seek) && pos <= len < HALF
    ensures r <= len
  {
    match seek
    case FromStart(o) => Clamp(o, len)
    case FromEnd(d) => Clamp(AddI64(len, d), len)
    case FromCurrent(d) => Clamp(AddI64(pos, d), len)
  }

  /** What the seek asks for. */
  function SeekGoal(seek: SeekFrom, pos: nat, len: nat): int {
    match seek
    case FromStart(o) => o
    case FromEnd(d) => len + d
    case FromCurrent(d) => pos + d
  }

  /** A seek lands on the position asked for, cut to the log, unless a relative one overflows 64 bits
      on a log that is not empty: then it lands on the start instead of the end. */
  lemma SeeksExactly(seek: SeekFrom, pos: nat, len: nat)
    requires SeekFits(seek) && pos <= len < HALF
    ensures SeekTarget(seek, pos, len) == Clamp(SeekGoal(seek, pos, len), len)
            <==> seek.FromStart? || SeekGoal(seek, pos, len) < 0x8000_0000_0000_0000 || len == 0
    ensures SeekTarget(seek, pos, len) != Clamp(SeekGoal(seek, pos, len), len) ==> SeekTarget(seek, pos, len) == 0
  {
  }
}
