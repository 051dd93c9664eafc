/** Secrets in configuration text: placeholders `{{type:value}}` are replaced one after another, each time
the first that is left in the text as rewritten so far.
*/
module Secrets {
  import opened Results
  import opened Sequences
  import opened Strings

  /** The regular expression's `\s` and `\w`. */
  datatype Classes = Classes(space: char -> bool, word: char -> bool) {
    ghost predicate Valid() {
      && (forall c :: space(c) ==> !IsValue(c) && c !in ":{}$")
      && (forall c :: word(c) ==> c !in ":{}$")
    }

    predicate IsValue(c: char) {
      word(c) || c in ".-?&/_="
    }
  }

  // ---------- the regular expression ----------

  datatype Placeholder = Placeholder(before: string, type_: string, value: string, after: string)

  /** `\{\{\s*(?P<type>\w+):(?P<value>[\w\.\-\?\&/_=]+)\s*\}\}` matches what such a placeholder shows. */
  predicate WellFormed(k: Classes, p: Placeholder) {
    && All(k.space, p.before) && All(k.space, p.after)
    && p.type_ != [] && All(k.word, p.type_)
    && p.value != [] && All(c => k.IsValue(c), p.value)
  }

  function Show(p: Placeholder): string {
    ShowThen(p, "")
  }

  /** The placeholder with `rest` after it. */
  function ShowThen(p: Placeholder, rest: string): string {
    "{{" + (p.before + (p.type_ + (":" + (p.value + (p.after + ("}}" + rest))))))
  }

  /** What is left after `t`. */
  function Eat(t: string, s: string): Option<string> {
    if t <= s then Some(s[|t|..]) else None
  }

  lemma EatFinds(t: string, y: string)
    ensures Eat(t, t + y) == Some(y)
  {
  }

  lemma EatLeaves(t: string, s: string)
    requires Eat(t, s).Some?
    ensures s == t + Eat(t, s).value
  {
  }

  lemma SplitAt(s: string, n: nat)
    requires n <= |s|
    ensures s == s[..n] + s[n..]
  {
  }

  datatype Match = Match(placeholder: Placeholder, rest: string)

  function MatchEnd(k: Classes, s: string, before: string, type_: string, value: string): Option<Match> {
    var n := Span(k.space, s);
    match Eat("}}", s[n..])
    case None => None
    case Some(rest) => Some(Match(Placeholder(before, type_, value, s[..n]), rest))
  }

  function MatchValue(k: Classes, s: string, before: string, type_: string): Option<Match> {
    var n := Span(c => k.IsValue(c), s);
    if n == 0 then None else MatchEnd(k, s[n..], before, type_, s[..n])
  }

  function MatchType(k: Classes, s: string, before: string): Option<Match> {
    var n := Span(k.word, s);
    if n == 0 then None else
    match Eat(":", s[n..])
    case None => None
    case Some(rest) => MatchValue(k, rest, before, s[..n])
  }

  /** The match of the regular expression at the beginning of the text. */
  function MatchHead(k: Classes, s: string): Option<Match> {
    match Eat("{{", s)
    case None => None
    case Some(rest) =>
      var n := Span(k.space, rest);
      MatchType(k, rest[n..], rest[..n])
  }

  lemma ClassesApart(k: Classes, s: string, next: string)
    requires k.Valid() && All(k.space, s) && |next| >= 1 && next[0] == '}'
    ensures !k.IsValue((s + next)[0]) && !k.space(next[0])
  {
    if s != [] {
      assert k.space(s[0]);
    }
    assert !k.space('}');
  }

  lemma EndFinds(k: Classes, p: Placeholder, rest: string)
    requires k.Valid() && WellFormed(k, p)
    ensures MatchEnd(k, p.after + ("}}" + rest), p.before, p.type_, p.value) == Some(Match(p, rest))
  {
    ClassesApart(k, "", "}}" + rest);
    assert "" + ("}}" + rest) == "}}" + rest;
    SpanFinds(k.space, p.after, "}}" + rest);
    EatFinds("}}", rest);
  }

  lemma ValueFinds(k: Classes, p: Placeholder, rest: string)
    requires k.Valid() && WellFormed(k, p)
    ensures MatchValue(k, p.value + (p.after + ("}}" + rest)), p.before, p.type_) == Some(Match(p, rest))
  {
    ClassesApart(k, p.after, "}}" + rest);
    SpanFinds(c => k.IsValue(c), p.value, p.after + ("}}" + rest));
    EndFinds(k, p, rest);
  }

  lemma TypeFinds(k: Classes, p: Placeholder, rest: string)
    requires k.Valid() && WellFormed(k, p)
    ensures MatchType(k, p.type_ + (":" + (p.value + (p.after + ("}}" + rest)))), p.before) == Some(Match(p, rest))
  {
    var tail := p.value + (p.after + ("}}" + rest));
    assert (":" + tail)[0] == ':' && !k.word(':');
    SpanFinds(k.word, p.type_, ":" + tail);
    EatFinds(":", tail);
    ValueFinds(k, p, rest);
  }

  /** The matcher finds a placeholder, whatever comes after it. */
  lemma HeadFinds(k: Classes, p: Placeholder, rest: string)
    requires k.Valid() && WellFormed(k, p)
    ensures MatchHead(k, ShowThen(p, rest)) == Some(Match(p, rest))
  {
    var tail := p.type_ + (":" + (p.value + (p.after + ("}}" + rest))));
    assert k.word(p.type_[0]) && tail[0] == p.type_[0] && !k.space(tail[0]);
    EatFinds("{{", p.before + tail);
    SpanFinds(k.space, p.before, tail);
    TypeFinds(k, p, rest);
  }

  lemma EndIsPlaceholder(k: Classes, s: string, before: string, type_: string, value: string)
    requires MatchEnd(k, s, before, type_, value).Some?
    ensures var m := MatchEnd(k, s, before, type_, value).value;
            && s == m.placeholder.after + ("}}" + m.rest) && All(k.space, m.placeholder.after)
            && m.placeholder == Placeholder(before, type_, value, m.placeholder.after)
  {
    SpanIsAll(k.space, s);
    var n := Span(k.space, s);
    assert s == s[..n] + s[n..];
  }

  lemma ValueIsPlaceholder(k: Classes, s: string, before: string, type_: string)
    requires MatchValue(k, s, before, type_).Some?
    ensures var m := MatchValue(k, s, before, type_).value;
            && s == m.placeholder.value + (m.placeholder.after + ("}}" + m.rest))
            && m.placeholder.value != [] && All(c => k.IsValue(c), m.placeholder.value) && All(k.space, m.placeholder.after)
            && m.placeholder.before == before && m.placeholder.type_ == type_
  {
    var n := Span(c => k.IsValue(c), s);
    SpanIsAll(c => k.IsValue(c), s);
    EndIsPlaceholder(k, s[n..], before, type_, s[..n]);
    assert s == s[..n] + s[n..];
  }

  lemma TypeIsPlaceholder(k: Classes, s: string, before: string)
    requires All(k.space, before) && MatchType(k, s, before).Some?
    ensures var m := MatchType(k, s, before).value;
            && s == m.placeholder.type_ + (":" + (m.placeholder.value + (m.placeholder.after + ("}}" + m.rest))))
            && WellFormed(k, m.placeholder) && m.placeholder.before == before
  {
    var n := Span(k.word, s);
    SpanIsAll(k.word, s);
    var t, tail := s[..n], s[n..];
    SplitAt(s, n);
    EatLeaves(":", tail);
    var rest := Eat(":", tail).value;
    ValueIsPlaceholder(k, rest, before, t);
    assert s == t + tail && tail == ":" + rest;
  }

  /** And it finds nothing else: a match is a placeholder at the beginning of the text. */
  lemma HeadIsPlaceholder(k: Classes, s: string)
    requires MatchHead(k, s).Some?
    ensures var m := MatchHead(k, s).value;
            s == ShowThen(m.placeholder, m.rest) && WellFormed(k, m.placeholder) && |m.rest| < |s|
  {
    EatLeaves("{{", s);
    var rest := Eat("{{", s).value;
    var n := Span(k.space, rest);
    SpanIsAll(k.space, rest);
    TypeIsPlaceholder(k, rest[n..], rest[..n]);
    SplitAt(rest, n);
  }

  /** One of the characters a value may have besides those of words. */
  ghost predicate InValue(k: Classes, c: char) {
    k.word(c) || c == '.' || c == '-' || c == '?' || c == '&' || c == '/' || c == '_' || c == '='
  }

  ghost predicate Shaped(k: Classes, p: Placeholder) {
    && (forall i :: 0 <= i < |p.before| ==> k.space(p.before[i])) && (forall i :: 0 <= i < |p.after| ==> k.space(p.after[i]))
    && p.type_ != [] && (forall i :: 0 <= i < |p.type_| ==> k.word(p.type_[i]))
    && p.value != [] && (forall i :: 0 <= i < |p.value| ==> InValue(k, p.value[i]))
  }

  lemma WellFormedIsShaped(k: Classes, p: Placeholder)
    ensures WellFormed(k, p) <==> Shaped(k, p)
  {
    forall c
      ensures k.IsValue(c) <==> InValue(k, c)
    {
    }
  }

  /** What is matched at the beginning of a text is exactly a placeholder: two opening braces, spaces, a type of
      word characters, a colon, a value, spaces and two closing braces. */
  lemma MatchesExactly(k: Classes, s: string, p: Placeholder, rest: string)
    requires k.Valid()
    ensures MatchHead(k, s) == Some(Match(p, rest)) <==> s == ShowThen(p, rest) && Shaped(k, p)
    ensures ShowThen(p, rest) == "{{" + (p.before + (p.type_ + (":" + (p.value + (p.after + ("}}" + rest))))))
  {
    WellFormedIsShaped(k, p);
    if MatchHead(k, s).Some? {
      HeadIsPlaceholder(k, s);
    }
    if s == ShowThen(p, rest) && WellFormed(k, p) {
      HeadFinds(k, p, rest);
    }
  }

  datatype Found = Found(skipped: string, placeholder: Placeholder, rest: string)

  /** The leftmost match. */
  function FirstMatch(k: Classes, s: string): Option<Found> {
    match MatchHead(k, s)
    case Some(m) => Some(Found("", m.placeholder, m.rest))
    case None =>
      if s == [] then None else
      match FirstMatch(k, s[1..])
      case None => None
      case Some(f) => Some(f.(skipped := [s[0]] + f.skipped))
  }

  /** The text is what was skipped, then the placeholder, then the rest. */
  predicate Splits(k: Classes, s: string, f: Found) {
    s == f.skipped + ShowThen(f.placeholder, f.rest) && WellFormed(k, f.placeholder) && |f.rest| < |s|
  }

  lemma SplitsFurther(k: Classes, s: string, f: Found)
    requires s != [] && Splits(k, s[1..], f)
    ensures Splits(k, s, f.(skipped := [s[0]] + f.skipped))
  {
    var shown := ShowThen(f.placeholder, f.rest);
    assert s == [s[0]] + s[1..];
    ConcatAssociative([s[0]], f.skipped, shown);
  }

  lemma {:induction false} FirstMatchSplits(k: Classes, s: string)
    requires FirstMatch(k, s).Some?
    ensures Splits(k, s, FirstMatch(k, s).value)
  {
    match MatchHead(k, s)
    case Some(m) =>
      HeadIsPlaceholder(k, s);
      NothingBefore(ShowThen(m.placeholder, m.rest));
    case None =>
      FirstMatchSplits(k, s[1..]);
      SplitsFurther(k, s, FirstMatch(k, s[1..]).value);
  }

  ghost predicate NoneIn(k: Classes, s: string, n: nat)
    requires n <= |s|
  {
    forall i :: 0 <= i < n ==> MatchHead(k, s[i..]).None?
  }

  /** It is the leftmost: there is a match where the text skipped ends and none before, or there is none at all. */
  lemma {:induction false} FirstMatchIsLeftmost(k: Classes, s: string)
    ensures match FirstMatch(k, s)
            case None => NoneIn(k, s, |s|)
            case Some(f) => |f.skipped| <= |s| && NoneIn(k, s, |f.skipped|)
                            && MatchHead(k, s[|f.skipped|..]) == Some(Match(f.placeholder, f.rest))
  {
    assert s[0..] == s;
    if s != [] && MatchHead(k, s).None? {
      FirstMatchIsLeftmost(k, s[1..]);
      forall i | 0 < i <= |s|
        ensures s[i..] == s[1..][i - 1..]
      {
      }
    }
  }

  lemma NothingBefore(s: string)
    ensures "" + s == s
  {
  }

  /** `captures_iter`: the matches from left to right. */
  function Captures(k: Classes, s: string): seq<Placeholder>
    decreases |s|
  {
    match FirstMatch(k, s)
    case None => []
    case Some(f) =>
      FirstMatchSplits(k, s);
      [f.placeholder] + Captures(k, f.rest)
  }

  // ---------- replacement texts ----------

  predicate NameChar(c: char) {
    '0' <= c <= '9' || 'a' <= c <= 'z' || 'A' <= c <= 'Z' || c == '_'
  }

  /** What a capture group's name or number stands for; in braces a number may have a plus sign. */
  function Group(p: Placeholder, name: string): string {
    var digits := if name != [] && name[0] == '+' then name[1..] else name;
    if digits != [] && All(IsDigit, digits) then
      match DigitsValue(digits) case 0 => Show(p) case 1 => p.type_ case 2 => p.value case _ => ""
    else if name == "type" then p.type_
    else if name == "value" then p.value
    else ""
  }

  /** A replacement text names groups: `$name`, `${name}`, and `$$` for a dollar sign. */
  function Expand(p: Placeholder, s: string): string
    decreases |s|
  {
    if s == [] then ""
    else if s[0] != '$' then [s[0]] + Expand(p, s[1..])
    else if |s| > 1 && s[1] == '$' then "$" + Expand(p, s[2..])
    else if |s| > 1 && s[1] == '{' then
      var close := 2 + Span(c => c != '}', s[2..]);
      if close == |s| then "$" + Expand(p, s[1..]) else Group(p, s[2..close]) + Expand(p, s[close + 1..])
    else
      var end := 1 + Span(NameChar, s[1..]);
      if end == 1 then "$" + Expand(p, s[1..]) else Group(p, s[1..end]) + Expand(p, s[end..])
  }

  lemma BracedRead(p: Placeholder, name: string, rest: string)
    requires '}' !in name
    ensures Expand(p, "${" + (name + ("}" + rest))) == Group(p, name) + Expand(p, rest)
  {
    var s := "${" + (name + ("}" + rest));
    assert s[2..] == name + ("}" + rest);
    forall i | 0 <= i < |name|
      ensures name[i] != '}'
    {
      assert name[i] in name;
    }
    SpanFinds(c => c != '}', name, "}" + rest);
    assert s[2..2 + |name|] == name && s[2 + |name| + 1..] == rest;
  }

  lemma BareRead(p: Placeholder, name: string, rest: string)
    requires name != [] && All(NameChar, name) && (rest == [] || !NameChar(rest[0]))
    ensures Expand(p, "$" + (name + rest)) == Group(p, name) + Expand(p, rest)
  {
    var s := "$" + (name + rest);
    assert s[1..] == name + rest && s[1] == name[0];
    SpanFinds(NameChar, name, rest);
    assert s[1..1 + |name|] == name && s[1 + |name|..] == rest;
  }

  /** The group is the type for "type" and 1, the value for "value" and 2, the whole placeholder for 0, and
      nothing for any other name or number. */
  ghost predicate GroupFor(p: Placeholder, name: string, text: string) {
    && (name == "type" ==> text == p.type_) && (name == "value" ==> text == p.value)
    && (name != [] && All(IsDigit, name) ==>
          text == match DigitsValue(name) case 0 => Show(p) case 1 => p.type_ case 2 => p.value case _ => "")
    && (!All(IsDigit, name) && name != "type" && name != "value" && name[0] != '+' ==> text == "")
  }

  /** Digits, letters and the underscore, by their code points. */
  ghost predicate InName(c: char) {
    var n := c as int;
    0x30 <= n <= 0x39 || 0x41 <= n <= 0x5A || n == 0x5F || 0x61 <= n <= 0x7A
  }

  /** What references in a replacement text stand for: two dollar signs for one, a name after a dollar sign, in
      braces or up to the last character that can be in a name, for its group. */
  lemma GroupsRead(p: Placeholder, name: string, rest: string)
    ensures Expand(p, "$$" + rest) == "$" + Expand(p, rest)
    ensures '}' !in name ==> exists text :: GroupFor(p, name, text) && Expand(p, "${" + (name + ("}" + rest))) == text + Expand(p, rest)
    ensures name != [] && (forall i :: 0 <= i < |name| ==> InName(name[i])) && (rest == [] || !InName(rest[0])) ==>
              exists text :: GroupFor(p, name, text) && Expand(p, "$" + (name + rest)) == text + Expand(p, rest)
  {
    assert ("$$" + rest)[2..] == rest;
    assert !IsDigit("type"[0]) && !IsDigit("value"[0]);
    assert GroupFor(p, name, Group(p, name));
    if '}' !in name {
      BracedRead(p, name, rest);
    }
    assert forall c :: NameChar(c) <==> InName(c);
    if name != [] && (forall i :: 0 <= i < |name| ==> InName(name[i])) && (rest == [] || !InName(rest[0])) {
      BareRead(p, name, rest);
    }
  }

  /** `replace`: the first match becomes the replacement. */
  function ReplaceFirst(k: Classes, s: string, replacement: string): string {
    match FirstMatch(k, s)
    case None => s
    case Some(f) => f.skipped + (Expand(f.placeholder, replacement) + f.rest)
  }

  // ---------- resolving ----------

  datatype SecretError = NoResolver(type_: string) | NotResolved(message: string)

  datatype Resolver = Resolver(prefix: string, resolve: string -> Result<string, SecretError>)

  datatype Setup = Setup(classes: Classes, resolvers: seq<Resolver>, isUri: bool, utf8: string -> seq<bv8>)

  const HEX := "0123456789ABCDEF"

  function EncodeByte(b: bv8): string {
    var n := b as int;
    if 0x30 <= n <= 0x39 || 0x41 <= n <= 0x5A || 0x61 <= n <= 0x7A || n == 0x2A || n == 0x2D || n == 0x2E || n == 0x5F
    then [n as char]
    else if n == 0x20 then "+"
    else ['%', HEX[n / 16], HEX[n % 16]]
  }

  /** `form_urlencoded::byte_serialize`. */
  function Encode(bytes: seq<bv8>): string {
    if bytes == [] then "" else EncodeByte(bytes[0]) + Encode(bytes[1..])
  }

  function FindResolver(resolvers: seq<Resolver>, prefix: string): Option<Resolver> {
    if resolvers == [] then None
    else if resolvers[0].prefix == prefix then Some(resolvers[0])
    else FindResolver(resolvers[1..], prefix)
  }

  ghost predicate FirstWith(resolvers: seq<Resolver>, prefix: string, i: int) {
    && 0 <= i < |resolvers| && resolvers[i].prefix == prefix
    && forall j :: 0 <= j < i ==> resolvers[j].prefix != prefix
  }

  lemma {:induction false} FindsFirst(resolvers: seq<Resolver>, prefix: string)
    ensures match FindResolver(resolvers, prefix)
            case Some(found) => exists i :: FirstWith(resolvers, prefix, i) && resolvers[i] == found
            case None => forall i :: 0 <= i < |resolvers| ==> resolvers[i].prefix != prefix
  {
    if resolvers != [] {
      var rest := resolvers[1..];
      FindsFirst(rest, prefix);
      if resolvers[0].prefix == prefix {
        assert FirstWith(resolvers, prefix, 0);
      } else {
        if i :| FirstWith(rest, prefix, i) && FindResolver(rest, prefix) == Some(rest[i]) {
          assert FirstWith(resolvers, prefix, i + 1);
        }
        assert forall i :: 0 < i < |resolvers| ==> resolvers[i] == rest[i - 1];
      }
    }
  }

  // ---------- the encoding read back ----------

  function HexValue(c: char): Option<int> {
    if '0' <= c <= '9' then Some(c as int - '0' as int)
    else if 'A' <= c <= 'F' then Some(c as int - 'A' as int + 10)
    else None
  }

  /** Letters, digits and `*-._` stand for themselves, a plus sign for a space, and two digits after a percent
      sign for the byte with that value. */
  function Decode(s: string): Option<seq<bv8>>
    decreases |s|
  {
    if s == [] then Some([])
    else if s[0] == '+' then DecodedFirst(0x20, Decode(s[1..]))
    else if Unreserved(s[0]) then DecodedFirst(s[0] as int, Decode(s[1..]))
    else if s[0] == '%' && |s| >= 3 && HexValue(s[1]).Some? && HexValue(s[2]).Some? then
      DecodedFirst(16 * HexValue(s[1]).value + HexValue(s[2]).value, Decode(s[3..]))
    else None
  }

  function DecodedFirst(n: int, rest: Option<seq<bv8>>): Option<seq<bv8>> {
    match rest
    case None => None
    case Some(bytes) => if 0 <= n < 256 then Some([n as bv8] + bytes) else None
  }

  predicate Unreserved(c: char) {
    'a' <= c <= 'z' || 'A' <= c <= 'Z' || '0' <= c <= '9' || c in "*-._"
  }

  lemma HexReadsBack(i: nat)
    requires i < 16
    ensures HexValue(HEX[i]) == Some(i)
  {
  }

  lemma SplitByte(n: int)
    requires 0 <= n < 256
    ensures 0 <= n / 16 < 16 && 0 <= n % 16 < 16 && 16 * (n / 16) + n % 16 == n
  {
  }

  lemma DecodesByte(b: bv8, rest: string)
    ensures Decode(EncodeByte(b) + rest) == DecodedFirst(b as int, Decode(rest))
  {
    var n := b as int;
    var s := EncodeByte(b) + rest;
    if |EncodeByte(b)| == 1 {
      assert s[1..] == rest;
    } else {
      SplitByte(n);
      HexReadsBack(n / 16);
      HexReadsBack(n % 16);
      assert s[0] == '%' && s[1] == HEX[n / 16] && s[2] == HEX[n % 16] && s[3..] == rest;
    }
  }

  /** Whatever the bytes, their encoding reads back as them. */
  lemma {:induction false} EncodingReadsBack(bytes: seq<bv8>)
    ensures Decode(Encode(bytes)) == Some(bytes)
  {
    if bytes != [] {
      EncodingReadsBack(bytes[1..]);
      DecodesByte(bytes[0], Encode(bytes[1..]));
      BytesBack(bytes[0]);
      assert bytes == [bytes[0]] + bytes[1..];
    }
  }

  lemma BytesBack(b: bv8)
    ensures 0 <= b as int < 256 && (b as int) as bv8 == b
  {
  }

  lemma UnreservedByte(b: bv8, c: char)
    requires b as int == c as int && Unreserved(c)
    ensures EncodeByte(b) == [c]
  {
    assert (b as int) as char == c;
  }

  /** And letters, digits and those four signs are not changed. */
  lemma {:induction false} UnreservedStand(bytes: seq<bv8>, s: string)
    requires |bytes| == |s| && forall i :: 0 <= i < |s| ==> bytes[i] as int == s[i] as int && Unreserved(s[i])
    ensures Encode(bytes) == s
  {
    if s != [] {
      UnreservedStand(bytes[1..], s[1..]);
      UnreservedByte(bytes[0], s[0]);
      assert s == [s[0]] + s[1..];
    }
  }

  /** The text a placeholder is to be replaced by. */
  function SecretText(c: Setup, p: Placeholder): Result<string, SecretError> {
    match FindResolver(c.resolvers, p.type_)
    case None => Err(NoResolver(p.type_))
    case Some(resolver) =>
      match resolver.resolve(p.value)
      case Err(e) => Err(e)
      case Ok(secret) => Ok(if c.isUri then Encode(c.utf8(secret)) else secret)
  }

  /** That is what the first resolver for its type makes of its value, encoded in a URI, or the reason why there
      is nothing. */
  lemma SecretTextExactly(c: Setup, p: Placeholder)
    ensures (forall i :: 0 <= i < |c.resolvers| ==> c.resolvers[i].prefix != p.type_) ==> SecretText(c, p) == Err(NoResolver(p.type_))
    ensures forall i :: FirstWith(c.resolvers, p.type_, i) ==>
              match c.resolvers[i].resolve(p.value)
              case Err(e) => SecretText(c, p) == Err(e)
              case Ok(secret) =>
                && SecretText(c, p).Ok?
                && (!c.isUri ==> SecretText(c, p).value == secret)
                && (c.isUri ==> Decode(SecretText(c, p).value) == Some(c.utf8(secret)))
  {
    FindsFirst(c.resolvers, p.type_);
    forall i | FirstWith(c.resolvers, p.type_, i)
      ensures FindResolver(c.resolvers, p.type_) == Some(c.resolvers[i])
    {
      var j :| FirstWith(c.resolvers, p.type_, j) && FindResolver(c.resolvers, p.type_) == Some(c.resolvers[j]);
    }
    if FindResolver(c.resolvers, p.type_).Some? {
      var resolved := FindResolver(c.resolvers, p.type_).value.resolve(p.value);
      if resolved.Ok? {
        EncodingReadsBack(c.utf8(resolved.value));
      }
    }
  }

  /** The `try_fold` over the captures of the original text. */
  function Rewrite(c: Setup, acc: string, captures: seq<Placeholder>): Result<string, SecretError>
    decreases |captures|
  {
    if captures == [] then Ok(acc)
    else
      match SecretText(c, captures[0])
      case Err(e) => Err(e)
      case Ok(text) => Rewrite(c, ReplaceFirst(c.classes, acc, text), captures[1..])
  }

  function ResolveSecrets(c: Setup, content: string): Result<string, SecretError> {
    Rewrite(c, content, Captures(c.classes, content))
  }

  // ---------- simultaneous substitution ----------

  datatype Piece = Literal(text: string) | Secret(placeholder: Placeholder)

  function Render(pieces: seq<Piece>): string {
    if pieces == [] then ""
    else
      match pieces[0]
      case Literal(t) => t + Render(pieces[1..])
      case Secret(p) => ShowThen(p, Render(pieces[1..]))
  }

  /** Every placeholder replaced by its secret at once; the first that has none is the error. */
  function Substitute(c: Setup, pieces: seq<Piece>): Result<string, SecretError> {
    if pieces == [] then Ok("")
    else
      match pieces[0]
      case Literal(t) => Prefixed(t, Substitute(c, pieces[1..]))
      case Secret(p) =>
        match SecretText(c, p)
        case Err(e) => Err(e)
        case Ok(text) => Prefixed(text, Substitute(c, pieces[1..]))
  }

  function Prefixed(t: string, r: Result<string, SecretError>): Result<string, SecretError> {
    match r case Ok(s) => Ok(t + s) case Err(e) => Err(e)
  }

  function PlaceholdersOf(pieces: seq<Piece>): seq<Placeholder> {
    if pieces == [] then []
    else
      match pieces[0]
      case Literal(_) => PlaceholdersOf(pieces[1..])
      case Secret(p) => [p] + PlaceholdersOf(pieces[1..])
  }

  predicate NoOpening(s: string) {
    '{' !in s
  }

  /** Opening braces occur in placeholders only. */
  ghost predicate Tidy(k: Classes, pieces: seq<Piece>) {
    forall i :: 0 <= i < |pieces| ==>
      match pieces[i] case Literal(t) => NoOpening(t) case Secret(p) => WellFormed(k, p)
  }

  lemma {:induction false} NoneInClosed(k: Classes, s: string)
    requires NoOpening(s)
    ensures FirstMatch(k, s) == None
  {
    if s != [] {
      NoOpeningRest(s);
      NoneInClosed(k, s[1..]);
    }
  }

  lemma NoOpeningRest(s: string)
    requires NoOpening(s) && s != []
    ensures s[0] != '{' && NoOpening(s[1..])
  {
    assert s[0] in s;
    forall c | c in s[1..]
      ensures c in s
    {
    }
  }

  /** The first match after text without opening braces is the placeholder that follows. */
  lemma {:induction false} NextMatch(k: Classes, done: string, p: Placeholder, rest: string)
    requires k.Valid() && WellFormed(k, p) && NoOpening(done)
    ensures FirstMatch(k, done + ShowThen(p, rest)) == Some(Found(done, p, rest))
  {
    if done == [] {
      HeadFinds(k, p, rest);
      NothingBefore(ShowThen(p, rest));
      assert done == "";
    } else {
      NoOpeningRest(done);
      NextMatch(k, done[1..], p, rest);
      var s := done + ShowThen(p, rest);
      TailOfConcat(done, ShowThen(p, rest));
      assert Eat("{{", s) == None;
      assert done == [done[0]] + done[1..];
    }
  }

  lemma TailOfConcat(s: string, t: string)
    requires s != []
    ensures (s + t)[0] == s[0] && (s + t)[1..] == s[1..] + t
  {
  }

  lemma NoOpeningConcat(s: string, t: string)
    requires NoOpening(s) && NoOpening(t)
    ensures NoOpening(s + t)
  {
  }

  lemma {:induction false} CapturesAll(k: Classes, pieces: seq<Piece>, done: string)
    requires k.Valid() && Tidy(k, pieces) && NoOpening(done)
    ensures Captures(k, done + Render(pieces)) == PlaceholdersOf(pieces)
    decreases |pieces|
  {
    if pieces == [] {
      assert done + Render(pieces) == done;
      NoneInClosed(k, done);
    } else {
      TidyRest(k, pieces);
      var rest := Render(pieces[1..]);
      match pieces[0]
      case Literal(t) =>
        NoOpeningConcat(done, t);
        CapturesAll(k, pieces[1..], done + t);
        assert done + (t + rest) == (done + t) + rest;
      case Secret(p) =>
        NextMatch(k, done, p, rest);
        CapturesAll(k, pieces[1..], "");
        assert "" + rest == rest;
    }
  }

  lemma TidyRest(k: Classes, pieces: seq<Piece>)
    requires Tidy(k, pieces) && pieces != []
    ensures Tidy(k, pieces[1..])
    ensures match pieces[0] case Literal(t) => NoOpening(t) case Secret(p) => WellFormed(k, p)
  {
  }

  /** A dollar sign that means something: before another, before a name, or before a name in braces. */
  predicate EscapeAt(s: string, i: int) {
    && 0 <= i && i + 1 < |s| && s[i] == '$'
    && (s[i + 1] == '$' || NameChar(s[i + 1]) || (s[i + 1] == '{' && '}' in s[i + 2..]))
  }

  predicate HasEscape(s: string) {
    exists i :: 0 <= i < |s| && EscapeAt(s, i)
  }

  lemma EscapeLater(s: string, i: nat)
    requires s != []
    ensures EscapeAt(s, i + 1) <==> EscapeAt(s[1..], i)
  {
    if i + 2 < |s| {
      assert s[1..][i + 2..] == s[i + 3..];
    }
  }

  lemma EscapeFirst(s: string)
    requires s != []
    ensures HasEscape(s) <==> EscapeAt(s, 0) || HasEscape(s[1..])
  {
    if i :| 0 <= i < |s| && EscapeAt(s, i) {
      if i > 0 {
        EscapeLater(s, i - 1);
      }
    }
    if i :| 0 <= i < |s[1..]| && EscapeAt(s[1..], i) {
      EscapeLater(s, i);
    }
  }

  lemma {:induction false} SpanCloses(s: string)
    ensures Span(c => c != '}', s) == |s| <==> '}' !in s
  {
    if s != [] {
      SpanCloses(s[1..]);
      assert s == [s[0]] + s[1..];
    }
  }

  /** Any other character stands for itself. */
  lemma LoneDollar(p: Placeholder, s: string)
    requires s != [] && !EscapeAt(s, 0)
    ensures Expand(p, s) == [s[0]] + Expand(p, s[1..])
  {
    if |s| > 1 && s[1] == '{' {
      SpanCloses(s[2..]);
    }
  }

  lemma {:induction false} PlainExpands(p: Placeholder, s: string)
    requires !HasEscape(s)
    ensures Expand(p, s) == s
    decreases |s|
  {
    if s != [] {
      EscapeFirst(s);
      LoneDollar(p, s);
      PlainExpands(p, s[1..]);
      assert s == [s[0]] + s[1..];
    }
  }

  function Dollars(s: string): nat {
    if s == [] then 0 else (if s[0] == '$' then 1 else 0) + Dollars(s[1..])
  }

  lemma {:induction false} DollarsConcat(s: string, t: string)
    ensures Dollars(s + t) == Dollars(s) + Dollars(t)
  {
    if s == [] {
      assert s + t == t;
    } else {
      assert (s + t)[1..] == s[1..] + t;
      DollarsConcat(s[1..], t);
    }
  }

  lemma {:induction false} NoDollars(s: string)
    ensures Dollars(s) == 0 <==> '$' !in s
  {
    if s != [] {
      NoDollars(s[1..]);
      assert s == [s[0]] + s[1..];
    }
  }

  /** No group of a placeholder has a dollar sign. */
  lemma GroupsHaveNoDollars(k: Classes, p: Placeholder, name: string)
    requires k.Valid() && WellFormed(k, p)
    ensures Dollars(Group(p, name)) == 0
  {
    assert '$' !in p.before && '$' !in p.after && '$' !in p.type_ && '$' !in p.value;
    NoDollars(p.type_);
    NoDollars(p.value);
    NoDollars("");
    ShowHasNoDollars(p);
  }

  lemma ShowHasNoDollars(p: Placeholder)
    requires '$' !in p.before && '$' !in p.after && '$' !in p.type_ && '$' !in p.value
    ensures Dollars(Show(p)) == 0
  {
    var r4 := "}}" + "";
    var r3 := p.after + r4;
    var r2 := p.value + r3;
    var r1 := ":" + r2;
    var r0 := p.type_ + r1;
    NoDollars(r4);
    NoDollars(p.after);
    DollarsConcat(p.after, r4);
    NoDollars(p.value);
    DollarsConcat(p.value, r3);
    DollarsConcat(":", r2);
    NoDollars(":");
    NoDollars(p.type_);
    DollarsConcat(p.type_, r1);
    NoDollars(p.before);
    DollarsConcat(p.before, r0);
    NoDollars("{{");
    DollarsConcat("{{", p.before + r0);
  }

  lemma DollarsFrom(s: string, i: nat)
    requires i <= |s|
    ensures Dollars(s[i..]) <= Dollars(s)
    ensures i > 0 && s[0] == '$' ==> Dollars(s[i..]) < Dollars(s)
    ensures i > 1 && s[0] == '$' && s[1] == '$' ==> Dollars(s[i..]) + 2 <= Dollars(s)
  {
    assert s == s[..i] + s[i..];
    DollarsConcat(s[..i], s[i..]);
    if i > 1 {
      assert s[..i][1..][0] == s[1];
    }
  }

  lemma EscapeLosesDollar(k: Classes, p: Placeholder, s: string)
    requires k.Valid() && WellFormed(k, p) && EscapeAt(s, 0)
    requires forall i :: 0 < i <= |s| ==> Dollars(Expand(p, s[i..])) <= Dollars(s[i..])
    ensures Dollars(Expand(p, s)) < Dollars(s)
  {
    if s[1] == '$' {
      DollarsFrom(s, 2);
      DollarsConcat("$", Expand(p, s[2..]));
    } else if s[1] == '{' {
      SpanCloses(s[2..]);
      var close := 2 + Span(c => c != '}', s[2..]);
      GroupsHaveNoDollars(k, p, s[2..close]);
      DollarsConcat(Group(p, s[2..close]), Expand(p, s[close + 1..]));
      DollarsFrom(s, close + 1);
    } else {
      var end := 1 + Span(NameChar, s[1..]);
      GroupsHaveNoDollars(k, p, s[1..end]);
      DollarsConcat(Group(p, s[1..end]), Expand(p, s[end..]));
      DollarsFrom(s, end);
    }
  }

  lemma {:induction false} ExpandLosesDollars(k: Classes, p: Placeholder, s: string)
    requires k.Valid() && WellFormed(k, p)
    ensures Dollars(Expand(p, s)) <= Dollars(s)
    ensures HasEscape(s) ==> Dollars(Expand(p, s)) < Dollars(s)
    decreases |s|
  {
    if s != [] {
      forall i | 0 < i <= |s|
        ensures Dollars(Expand(p, s[i..])) <= Dollars(s[i..])
      {
        ExpandLosesDollars(k, p, s[i..]);
      }
      EscapeFirst(s);
      if EscapeAt(s, 0) {
        EscapeLosesDollar(k, p, s);
      } else {
        LoneDollar(p, s);
        ExpandLosesDollars(k, p, s[1..]);
        DollarsConcat([s[0]], Expand(p, s[1..]));
      }
    }
  }

  /** A replacement text reads as itself exactly if no dollar sign in it is before another, before a letter,
      digit or underscore, or before a closed pair of braces. */
  lemma ReadsAsItselfExactly(k: Classes, p: Placeholder, s: string)
    requires k.Valid() && WellFormed(k, p)
    ensures Expand(p, s) == s <==> !HasEscape(s)
  {
    if HasEscape(s) {
      ExpandLosesDollars(k, p, s);
    } else {
      PlainExpands(p, s);
    }
  }

  /** A text that reads as itself and opens nothing. */
  predicate Plain(s: string) {
    '{' !in s && !HasEscape(s)
  }

  lemma ReplacesNext(k: Classes, done: string, p: Placeholder, rest: string, text: string)
    requires k.Valid() && WellFormed(k, p) && NoOpening(done) && Plain(text)
    ensures ReplaceFirst(k, done + ShowThen(p, rest), text) == (done + text) + rest
  {
    NextMatch(k, done, p, rest);
    PlainExpands(p, text);
    assert (done + text) + rest == done + (text + rest);
  }

  /** Every secret the placeholders name reads as itself. */
  ghost predicate PlainSecrets(c: Setup, pieces: seq<Piece>) {
    forall i :: 0 <= i < |pieces| && pieces[i].Secret? && SecretText(c, pieces[i].placeholder).Ok? ==>
      Plain(SecretText(c, pieces[i].placeholder).value)
  }

  lemma {:induction false} RewriteSubstitutes(c: Setup, pieces: seq<Piece>, done: string)
    requires c.classes.Valid() && Tidy(c.classes, pieces) && PlainSecrets(c, pieces) && NoOpening(done)
    ensures Rewrite(c, done + Render(pieces), PlaceholdersOf(pieces)) == Prefixed(done, Substitute(c, pieces))
    decreases |pieces|
  {
    if pieces != [] {
      TidyRest(c.classes, pieces);
      assert PlainSecrets(c, pieces[1..]);
      var rest := Render(pieces[1..]);
      match pieces[0]
      case Literal(t) =>
        NoOpeningConcat(done, t);
        RewriteSubstitutes(c, pieces[1..], done + t);
        PrefixedTwice(done, t, Substitute(c, pieces[1..]));
        assert done + (t + rest) == (done + t) + rest;
      case Secret(p) =>
        var secret := SecretText(c, p);
        assert PlaceholdersOf(pieces)[1..] == PlaceholdersOf(pieces[1..]);
        if secret.Ok? {
          ReplacesNext(c.classes, done, p, rest, secret.value);
          NoOpeningConcat(done, secret.value);
          RewriteSubstitutes(c, pieces[1..], done + secret.value);
          PrefixedTwice(done, secret.value, Substitute(c, pieces[1..]));
        }
    }
  }

  lemma PrefixedTwice(a: string, b: string, r: Result<string, SecretError>)
    ensures Prefixed(a + b, r) == Prefixed(a, Prefixed(b, r))
  {
    if r.Ok? {
      assert (a + b) + r.value == a + (b + r.value);
    }
  }

  /** Replacing one after another is replacing all at once, and an error is the first placeholder's that
      cannot be resolved, if opening braces occur in placeholders only and the secrets read as themselves. */
  lemma ResolvesSimultaneously(c: Setup, pieces: seq<Piece>)
    requires c.classes.Valid() && Tidy(c.classes, pieces) && PlainSecrets(c, pieces)
    ensures ResolveSecrets(c, Render(pieces)) == Substitute(c, pieces)
  {
    assert "" + Render(pieces) == Render(pieces);
    CapturesAll(c.classes, pieces, "");
    RewriteSubstitutes(c, pieces, "");
    PrefixedTwice("", "", Substitute(c, pieces));
    assert Substitute(c, pieces).Ok? ==> "" + Substitute(c, pieces).value == Substitute(c, pieces).value;
  }

  lemma HexIsPlain(i: nat)
    requires i < 16
    ensures HEX[i] != '{' && HEX[i] != '$'
  {
  }

  lemma EncodedByteIsPlain(b: bv8)
    ensures '{' !in EncodeByte(b) && '$' !in EncodeByte(b)
  {
    var n := b as int;
    HexIsPlain(n / 16);
    HexIsPlain(n % 16);
  }

  lemma {:induction false} EncodedIsClean(bytes: seq<bv8>)
    ensures '{' !in Encode(bytes) && '$' !in Encode(bytes)
  {
    if bytes != [] {
      EncodedByteIsPlain(bytes[0]);
      EncodedIsClean(bytes[1..]);
    }
  }

  lemma EncodedIsPlain(bytes: seq<bv8>)
    ensures Plain(Encode(bytes))
  {
    EncodedIsClean(bytes);
    NoDollarNoEscape(Encode(bytes));
  }

  lemma NoDollarNoEscape(s: string)
    requires '$' !in s
    ensures !HasEscape(s)
  {
    forall i | 0 <= i < |s|
      ensures !EscapeAt(s, i)
    {
      assert s[i] in s;
    }
  }

  /** With URI encoding this holds whatever the secrets contain. */
  lemma UriResolvesSimultaneously(c: Setup, pieces: seq<Piece>)
    requires c.classes.Valid() && Tidy(c.classes, pieces) && c.isUri
    ensures ResolveSecrets(c, Render(pieces)) == Substitute(c, pieces)
  {
    forall i | 0 <= i < |pieces| && pieces[i].Secret? && SecretText(c, pieces[i].placeholder).Ok?
      ensures Plain(SecretText(c, pieces[i].placeholder).value)
    {
      var p := pieces[i].placeholder;
      EncodedIsPlain(c.utf8(FindResolver(c.resolvers, p.type_).value.resolve(p.value).value));
    }
    ResolvesSimultaneously(c, pieces);
  }

  // ---------- where it fails ----------

  /** A placeholder inside the braces of text that is not one. */
  function Nested(type_: string, inner: Placeholder, rest: string): string {
    "{{" + (type_ + (":" + ShowThen(inner, "}}" + rest)))
  }

  lemma NestedHeadIsNone(k: Classes, type_: string, inner: Placeholder, rest: string)
    requires k.Valid() && type_ != [] && All(k.word, type_)
    ensures MatchHead(k, Nested(type_, inner, rest)) == None
  {
    var shown := ShowThen(inner, "}}" + rest);
    var tail := ":" + shown;
    EatFinds("{{", type_ + tail);
    assert k.word(type_[0]) && (type_ + tail)[0] == type_[0] && !k.space(type_[0]);
    assert "" + (type_ + tail) == type_ + tail;
    SpanFinds(k.space, "", type_ + tail);
    assert tail[0] == ':' && !k.word(':');
    SpanFinds(k.word, type_, tail);
    EatFinds(":", shown);
    assert shown[0] == '{' && !k.word('{') && !k.IsValue('{');
  }

  lemma SkipOne(k: Classes, c: char, s: string, f: Found)
    requires MatchHead(k, [c] + s) == None && FirstMatch(k, s) == Some(f)
    ensures FirstMatch(k, [c] + s) == Some(Found([c] + f.skipped, f.placeholder, f.rest))
  {
    assert ([c] + s)[1..] == s;
  }

  lemma LoneBrace(k: Classes, s: string)
    requires s != [] && s[0] != '{'
    ensures MatchHead(k, ['{'] + s) == None
  {
    assert (['{'] + s)[1] == s[0];
  }

  lemma WordHasNoBrace(k: Classes, word: string)
    requires k.Valid() && All(k.word, word)
    ensures NoOpening(word + ":")
  {
    forall c | c in word
      ensures c != '{'
    {
      var i :| 0 <= i < |word| && word[i] == c;
      assert k.word(word[i]);
    }
  }

  lemma NestedShape(type_: string, shown: string)
    ensures "{{" + (type_ + (":" + shown)) == ['{'] + (['{'] + ((type_ + ":") + shown))
    ensures ['{'] + (['{'] + (type_ + ":")) == "{{" + type_ + ":"
  {
  }

  /** So the inner one is the first match. */
  lemma NestedFirstMatch(k: Classes, type_: string, inner: Placeholder, rest: string)
    requires k.Valid() && type_ != [] && All(k.word, type_) && WellFormed(k, inner)
    ensures FirstMatch(k, Nested(type_, inner, rest)) == Some(Found("{{" + type_ + ":", inner, "}}" + rest))
  {
    var shown := ShowThen(inner, "}}" + rest);
    var label_ := type_ + ":";
    NestedHeadIsNone(k, type_, inner, rest);
    NestedShape(type_, shown);
    WordHasNoBrace(k, type_);
    NextMatch(k, label_, inner, "}}" + rest);
    assert k.word(type_[0]) && (label_ + shown)[0] == type_[0];
    LoneBrace(k, label_ + shown);
    SkipOne(k, '{', label_ + shown, Found(label_, inner, "}}" + rest));
    SkipOne(k, '{', ['{'] + (label_ + shown), Found(['{'] + label_, inner, "}}" + rest));
  }

  /** When opening braces occur elsewhere, a secret can complete what looks like a placeholder, and the
      next secret goes there: the first is lost and the second placeholder is left in the text. */
  lemma OpeningBraceMisdirects(c: Setup, type_: string, first: Placeholder, second: Placeholder, x: string, y: string)
    requires c.classes.Valid() && type_ != [] && All(c.classes.word, type_)
    requires WellFormed(c.classes, first) && WellFormed(c.classes, second)
    requires SecretText(c, first) == Ok(x) && x != [] && All(v => c.classes.IsValue(v), x)
    requires SecretText(c, second) == Ok(y) && Plain(y)
    ensures ResolveSecrets(c, Nested(type_, first, Show(second))) == Ok(y + Show(second))
  {
    var k := c.classes;
    var content := Nested(type_, first, Show(second));
    NestedFirstMatch(k, type_, first, Show(second));
    CapturesAll(k, [Secret(second)], "}}");
    assert Render([]) == "" && Render([Secret(second)]) == Show(second);
    assert PlaceholdersOf([]) == [] && PlaceholdersOf([Secret(second)]) == [second];
    FirstMatchSplits(k, content);
    assert Captures(k, content) == [first] + [second];

    forall d | d in x
      ensures d != '$'
    {
      var i :| 0 <= i < |x| && x[i] == d;
      assert c.classes.IsValue(x[i]);
    }
    NoDollarNoEscape(x);
    PlainExpands(first, x);
    var completed := Placeholder("", type_, x, "");
    var acc := ReplaceFirst(k, content, x);
    CompletedBy(type_, x, Show(second));
    assert acc == ShowThen(completed, Show(second));
    HeadFinds(k, completed, Show(second));
    PlainExpands(completed, y);
    NothingBefore(y + Show(second));
    assert ReplaceFirst(k, acc, y) == y + Show(second);
    assert ([first] + [second])[1..] == [second] && [second][1..] == [];
    assert Rewrite(c, acc, [second]) == Rewrite(c, y + Show(second), []);
  }

  lemma CompletedBy(type_: string, x: string, rest: string)
    ensures ("{{" + type_ + ":") + (x + ("}}" + rest)) == ShowThen(Placeholder("", type_, x, ""), rest)
  {
  }

  /** A text that is one placeholder resolves to what its secret expands to: to the secret itself exactly if
      no dollar sign in it means something. */
  lemma OneSecretExactly(c: Setup, p: Placeholder, x: string)
    requires c.classes.Valid() && WellFormed(c.classes, p) && SecretText(c, p) == Ok(x)
    ensures ResolveSecrets(c, Show(p)) == Ok(Expand(p, x))
    ensures ResolveSecrets(c, Show(p)) == Ok(x) <==> !HasEscape(x)
  {
    var k := c.classes;
    HeadFinds(k, p, "");
    assert FirstMatch(k, "") == None;
    HeadIsPlaceholder(k, Show(p));
    assert Captures(k, Show(p)) == [p] + [];
    var expanded := Expand(p, x);
    NothingBefore(expanded + "");
    assert expanded + "" == expanded;
    assert ReplaceFirst(k, Show(p), x) == expanded;
    assert ([p] + [])[1..] == [];
    assert Rewrite(c, expanded, []) == Ok(expanded);
    ReadsAsItselfExactly(k, p, x);
  }

  lemma TwoDollars(p: Placeholder)
    ensures Expand(p, "$$") == "$"
  {
    assert "$$"[2..] == "";
    assert Expand(p, "") == "";
    assert "$" + "" == "$";
  }

  /** Without URI encoding, dollar signs in a secret are read as references to groups. */
  lemma DollarsAreRead(c: Setup, p: Placeholder)
    requires c.classes.Valid() && WellFormed(c.classes, p)
    requires SecretText(c, p) == Ok("$$")
    ensures ResolveSecrets(c, Show(p)) == Ok("$")
  {
    OneSecretExactly(c, p, "$$");
    TwoDollars(p);
  }
}
