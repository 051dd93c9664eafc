/** Arguments on the command line of the client: how their text becomes a list, and the list typed data. */
module Arguments {
  import opened ChannelData
  import opened Channels
  import opened Results
  import opened Strings
  import opened Validation

  /** `\s` and `[\p{Emoji}\w.-]`. */
  datatype Classes = Classes(space: char -> bool, token: char -> bool) {
    ghost predicate Valid() {
      && (forall c :: token(c) ==> !space(c) && c !in "\"'[]")
      && (forall c :: space(c) ==> c !in "\"'[]")
      && (forall c :: '0' <= c <= '9' ==> token(c)) && token('-')
      && space(' ') && space('\n')
    }

    predicate InDouble(c: char) {
      token(c) || space(c) || c == '\''
    }

    predicate InSingle(c: char) {
      token(c) || space(c)
    }
  }

  // ---------- lists ----------

  predicate Bracketed(k: Classes, s: string, i: nat, j: nat)
    requires i < j < |s|
  {
    && All(k.space, s[..i]) && s[i] == '['
    && s[j] == ']' && All(k.space, s[j + 1..])
    && '\n' !in s[i + 1..j]
  }

  /** `^\s*\[.*]\s*$`; the dot is any character but a newline. */
  predicate IsList(k: Classes, s: string) {
    exists i, j :: 0 <= i < j < |s| && Bracketed(k, s, i, j)
  }

  /** The text between quotes at the beginning, and what follows. */
  function QuotedHead(q: char, inside: char -> bool, s: string): Option<(string, string)> {
    if s == [] || s[0] != q then None else
    var n := Span(inside, s[1..]);
    if 1 + n < |s| && s[1 + n] == q then Some((s[1..1 + n], s[n + 2..])) else None
  }

  /** The match at the beginning of one of `match1`, `"match2"`, `'match3'`: its group and what follows. */
  function TokenHead(k: Classes, s: string): (r: Option<(string, string)>)
    ensures r.Some? ==> |r.value.1| < |s|
  {
    var n := Span(k.token, s);
    if n > 0 then Some((s[..n], s[n..]))
    else if QuotedHead('"', c => k.InDouble(c), s).Some? then QuotedHead('"', c => k.InDouble(c), s)
    else QuotedHead('\'', c => k.InSingle(c), s)
  }

  ghost predicate QuotedBy(q: string, text: string, rest: string, s: string) {
    s == q + text + q + rest
  }

  /** A token at the beginning of a text: as many token characters as there are, or such characters and spaces
      between double quotes, where single ones may be too, or between single quotes. */
  ghost predicate Token(k: Classes, s: string, text: string, rest: string) {
    || (s == text + rest && text != [] && (forall i :: 0 <= i < |text| ==> k.token(text[i])) && (rest == [] || !k.token(rest[0])))
    || (QuotedBy("\"", text, rest, s) && forall i :: 0 <= i < |text| ==> k.token(text[i]) || k.space(text[i]) || text[i] == '\'')
    || (QuotedBy("'", text, rest, s) && forall i :: 0 <= i < |text| ==> k.token(text[i]) || k.space(text[i]))
  }

  lemma HeadIsToken(k: Classes, s: string)
    requires k.Valid() && TokenHead(k, s).Some?
    ensures Token(k, s, TokenHead(k, s).value.0, TokenHead(k, s).value.1)
  {
    var n := Span(k.token, s);
    SpanIsAll(k.token, s);
    SpanStops(k.token, s);
    if n > 0 {
      assert s == s[..n] + s[n..];
      forall i | 0 <= i < n
        ensures k.token(s[..n][i])
      {
      }
    } else if QuotedHead('"', c => k.InDouble(c), s).Some? {
      QuotedParts('"', "\"", c => k.InDouble(c), s);
    } else {
      QuotedParts('\'', "'", c => k.InSingle(c), s);
    }
  }

  lemma QuotedParts(q: char, mark: string, inside: char -> bool, s: string)
    requires QuotedHead(q, inside, s).Some? && mark == [q]
    ensures QuotedBy(mark, QuotedHead(q, inside, s).value.0, QuotedHead(q, inside, s).value.1, s)
    ensures forall i :: 0 <= i < |QuotedHead(q, inside, s).value.0| ==> inside(QuotedHead(q, inside, s).value.0[i])
  {
    var n := Span(inside, s[1..]);
    SpanIsAll(inside, s[1..]);
    assert s[1..][..n] == s[1..1 + n];
    assert s == mark + s[1..1 + n] + mark + s[n + 2..];
  }

  lemma TokenIsHead(k: Classes, s: string, text: string, rest: string)
    requires k.Valid() && Token(k, s, text, rest)
    ensures TokenHead(k, s) == Some((text, rest))
  {
    if s == text + rest && text != [] && (forall i :: 0 <= i < |text| ==> k.token(text[i])) && (rest == [] || !k.token(rest[0])) {
      SpanFinds(k.token, text, rest);
    } else {
      QuotesAreNoTokens(k, s);
      if QuotedBy("\"", text, rest, s) && forall i :: 0 <= i < |text| ==> k.token(text[i]) || k.space(text[i]) || text[i] == '\'' {
        assert !k.InDouble('"');
        QuotedFinds('"', c => k.InDouble(c), text, rest);
        assert s == (['"'] + (text + ['"'])) + rest;
      } else {
        assert !k.InSingle('\'') && s[0] == '\'';
        QuotedFinds('\'', c => k.InSingle(c), text, rest);
        assert s == (['\''] + (text + ['\''])) + rest;
      }
    }
  }

  /** What is matched at the beginning of a text is exactly a token. */
  lemma TokensExactly(k: Classes, s: string, text: string, rest: string)
    requires k.Valid()
    ensures TokenHead(k, s) == Some((text, rest)) <==> Token(k, s, text, rest)
  {
    if Token(k, s, text, rest) {
      TokenIsHead(k, s, text, rest);
    } else if TokenHead(k, s).Some? {
      HeadIsToken(k, s);
    }
  }

  /** All the matches. */
  function Tokens(k: Classes, s: string): seq<string>
    decreases |s|
  {
    match TokenHead(k, s)
    case Some((text, rest)) => [text] + Tokens(k, rest)
    case None => if s == [] then [] else Tokens(k, s[1..])
  }

  predicate IsQuote(c: char) { c == '"' || c == '\'' }

  function TrimEnd(s: string): string {
    if s != [] && IsQuote(s[|s| - 1]) then TrimEnd(s[..|s| - 1]) else s
  }

  function TrimQuotes(s: string): string {
    TrimEnd(s[Span(IsQuote, s)..])
  }

  ghost predicate BareEnds(s: string) {
    s != [] ==> !IsQuote(s[0]) && !IsQuote(s[|s| - 1])
  }

  lemma {:induction false} TrimsEnd(s: string) returns (after: string)
    ensures s == TrimEnd(s) + after && All(IsQuote, after)
    ensures TrimEnd(s) != [] ==> !IsQuote(TrimEnd(s)[|TrimEnd(s)| - 1])
  {
    after := "";
    if s != [] && IsQuote(s[|s| - 1]) {
      var more := TrimsEnd(s[..|s| - 1]);
      after := more + [s[|s| - 1]];
      assert s == s[..|s| - 1] + [s[|s| - 1]];
    } else {
      assert s + "" == s;
    }
  }

  lemma {:induction false} SpanStops(p: char -> bool, s: string)
    ensures Span(p, s) < |s| ==> !p(s[Span(p, s)])
  {
    if s != [] && p(s[0]) {
      SpanStops(p, s[1..]);
    }
  }

  /** What is left of a text that is no list is that without the quotes around it: all of them, on both sides. */
  lemma TrimsQuotesExactly(s: string) returns (before: string, after: string)
    ensures s == before + (TrimQuotes(s) + after)
    ensures All(IsQuote, before) && All(IsQuote, after) && BareEnds(TrimQuotes(s))
  {
    var n := Span(IsQuote, s);
    before := s[..n];
    var rest := s[n..];
    SpanIsAll(IsQuote, s);
    SpanStops(IsQuote, s);
    after := TrimsEnd(rest);
    var t := TrimEnd(rest);
    assert s == before + rest;
    if t != [] {
      assert t[0] == rest[0] == s[n];
    }
  }

  function ArgumentToList(k: Classes, arg: string): seq<string> {
    if IsList(k, arg) then Tokens(k, arg) else [TrimQuotes(arg)]
  }

  // ---------- printing lists ----------

  datatype Word = Bare(text: string) | Double(text: string) | Single(text: string)

  predicate Printable(k: Classes, w: Word) {
    match w
    case Bare(t) => t != [] && All(k.token, t)
    case Double(t) => All(c => k.InDouble(c), t)
    case Single(t) => All(c => k.InSingle(c), t)
  }

  function ShowWord(w: Word): string {
    match w
    case Bare(t) => t
    case Double(t) => ['"'] + (t + ['"'])
    case Single(t) => ['\''] + (t + ['\''])
  }

  /** The words with a space before each, then a closing bracket. */
  function ShowWords(ws: seq<Word>): string {
    if ws == [] then "]" else ShowWord(ws[0]) + ShowMore(ws[1..])
  }

  function ShowMore(ws: seq<Word>): string {
    if ws == [] then "]" else [' '] + (ShowWord(ws[0]) + ShowMore(ws[1..]))
  }

  /** `[a "b" 'c']` */
  function ShowList(ws: seq<Word>): string {
    ['['] + ShowWords(ws)
  }

  function Texts(ws: seq<Word>): seq<string> {
    if ws == [] then [] else [ws[0].text] + Texts(ws[1..])
  }

  lemma QuotedFinds(q: char, inside: char -> bool, t: string, rest: string)
    requires All(inside, t) && !inside(q)
    ensures QuotedHead(q, inside, ([q] + (t + [q])) + rest) == Some((t, rest))
  {
    var s := ([q] + (t + [q])) + rest;
    assert s[1..] == t + ([q] + rest);
    SpanFinds(inside, t, [q] + rest);
    assert s[1..1 + |t|] == t && s[|t| + 2..] == rest;
  }

  lemma QuotesAreNoTokens(k: Classes, s: string)
    requires k.Valid() && s != [] && s[0] in "\"' []\n"
    ensures Span(k.token, s) == 0
  {
    assert k.space(s[0]) || s[0] in "\"'[]";
  }

  lemma WordFound(k: Classes, w: Word, rest: string)
    requires k.Valid() && Printable(k, w) && rest != [] && rest[0] in " ]"
    ensures TokenHead(k, ShowWord(w) + rest) == Some((w.text, rest))
  {
    var s := ShowWord(w) + rest;
    match w
    case Bare(t) =>
      QuotesAreNoTokens(k, rest);
      SpanFinds(k.token, t, rest);
    case Double(t) =>
      QuotesAreNoTokens(k, s);
      assert !k.InDouble('"');
      QuotedFinds('"', c => k.InDouble(c), t, rest);
    case Single(t) =>
      QuotesAreNoTokens(k, s);
      assert !k.InSingle('\'');
      assert QuotedHead('"', c => k.InDouble(c), s) == None;
      QuotedFinds('\'', c => k.InSingle(c), t, rest);
  }

  lemma Skipped(k: Classes, c: char, s: string)
    requires k.Valid() && c in " []"
    ensures Tokens(k, [c] + s) == Tokens(k, s)
  {
    QuotesAreNoTokens(k, [c] + s);
    assert ([c] + s)[1..] == s;
  }

  lemma NothingToFind(k: Classes)
    ensures Tokens(k, "") == []
  {
  }

  ghost predicate OneLine(ws: seq<Word>) {
    forall i :: 0 <= i < |ws| ==> '\n' !in ws[i].text
  }

  /** Neither a newline nor a closing bracket before the end. */
  predicate Inner(s: string) {
    && s != [] && s[|s| - 1] == ']'
    && forall i :: 0 <= i < |s| - 1 ==> s[i] != ']'
  }

  lemma NewlinesOfWord(w: Word)
    ensures '\n' in ShowWord(w) <==> '\n' in w.text
    ensures !w.Bare? ==> ShowWord(w) != []
  {
    var shown := ShowWord(w);
    if '\n' in w.text {
      var i :| 0 <= i < |w.text| && w.text[i] == '\n';
      assert w.Bare? || shown[i + 1] == '\n';
    }
    if '\n' in shown && !w.Bare? {
      var i :| 0 <= i < |shown| && shown[i] == '\n';
      assert w.text[i - 1] == '\n';
    }
  }

  lemma WordHasNoBracket(k: Classes, w: Word)
    requires k.Valid() && Printable(k, w)
    ensures ']' !in ShowWord(w)
  {
    assert !k.token(']') && !k.InDouble(']') && !k.InSingle(']');
  }

  lemma InnerConcat(s: string, t: string)
    requires Inner(t) && ']' !in s
    ensures Inner(s + t)
  {
    forall i | 0 <= i < |s + t| - 1
      ensures (s + t)[i] != ']'
    {
      if i < |s| {
        assert s[i] in s;
      }
    }
  }

  lemma {:induction false} MoreIsInner(k: Classes, ws: seq<Word>)
    requires k.Valid() && forall i :: 0 <= i < |ws| ==> Printable(k, ws[i])
    ensures Inner(ShowMore(ws))
    ensures '\n' in ShowMore(ws) <==> !OneLine(ws)
  {
    if ws != [] {
      MoreIsInner(k, ws[1..]);
      NewlinesOfWord(ws[0]);
      WordHasNoBracket(k, ws[0]);
      InnerConcat(ShowWord(ws[0]), ShowMore(ws[1..]));
      InnerConcat([' '], ShowWord(ws[0]) + ShowMore(ws[1..]));
      OneLineRest(ws);
    }
  }

  lemma OneLineRest(ws: seq<Word>)
    requires ws != []
    ensures OneLine(ws) <==> '\n' !in ws[0].text && OneLine(ws[1..])
  {
    if '\n' !in ws[0].text && OneLine(ws[1..]) {
      forall i | 0 <= i < |ws|
        ensures '\n' !in ws[i].text
      {
        assert i > 0 ==> ws[i] == ws[1..][i - 1];
      }
    }
  }

  lemma WordsAreInner(k: Classes, ws: seq<Word>)
    requires k.Valid() && forall i :: 0 <= i < |ws| ==> Printable(k, ws[i])
    ensures Inner(ShowWords(ws))
    ensures '\n' in ShowWords(ws) <==> !OneLine(ws)
  {
    if ws != [] {
      MoreIsInner(k, ws[1..]);
      NewlinesOfWord(ws[0]);
      WordHasNoBracket(k, ws[0]);
      InnerConcat(ShowWord(ws[0]), ShowMore(ws[1..]));
      OneLineRest(ws);
    }
  }

  lemma FirstOf(p: char -> bool, s: string, i: nat)
    requires i <= |s| && All(p, s[..i])
    ensures i > 0 ==> p(s[0])
  {
    assert i > 0 ==> s[..i][0] == s[0];
  }

  lemma InnerIsList(k: Classes, s: string)
    requires k.Valid() && Inner(s)
    ensures IsList(k, ['['] + s) <==> '\n' !in s
  {
    var a := ['['] + s;
    if '\n' !in s {
      assert a[1..|a| - 1] == s[..|s| - 1];
      assert Bracketed(k, a, 0, |a| - 1);
    }
    if i, j :| 0 <= i < j < |a| && Bracketed(k, a, i, j) {
      FirstOf(k.space, a, i);
      assert a[j] == s[j - 1];
      assert s == a[1..j] + [']'];
    }
  }

  lemma NothingTrimmed(s: string)
    requires s != [] && !IsQuote(s[0]) && !IsQuote(s[|s| - 1])
    ensures TrimQuotes(s) == s
  {
    assert s[0..] == s;
  }

  lemma TextsHaveNoBracket(k: Classes, ws: seq<Word>)
    requires k.Valid() && |ws| == 1 && Printable(k, ws[0])
    ensures ']' !in Texts(ws)[0]
  {
    assert !k.token(']') && !k.InDouble(']') && !k.InSingle(']');
  }

  lemma {:induction false} TextsLength(ws: seq<Word>)
    ensures |Texts(ws)| == |ws|
  {
    if ws != [] {
      TextsLength(ws[1..]);
    }
  }

  /** Spaces around a list hold no token. */
  lemma {:induction false} SpacesBefore(k: Classes, before: string, s: string)
    requires k.Valid() && All(k.space, before)
    ensures Tokens(k, before + s) == Tokens(k, s)
  {
    if before == [] {
      assert before + s == s;
    } else {
      var all := before + s;
      assert k.space(all[0]) && !k.token(all[0]);
      assert TokenHead(k, all) == None;
      assert all[1..] == before[1..] + s;
      SpacesBefore(k, before[1..], s);
    }
  }

  lemma OnlySpaces(k: Classes, after: string)
    requires k.Valid() && All(k.space, after)
    ensures Tokens(k, after) == []
  {
    SpacesBefore(k, after, "");
    assert after + "" == after;
    NothingToFind(k);
  }

  lemma ClosingSkipped(k: Classes, after: string)
    requires k.Valid() && All(k.space, after)
    ensures Tokens(k, [']'] + after) == []
  {
    Skipped(k, ']', after);
    OnlySpaces(k, after);
  }

  lemma WordTokens(k: Classes, w: Word, rest: string)
    requires k.Valid() && Printable(k, w) && rest != [] && rest[0] in " ]"
    ensures Tokens(k, ShowWord(w) + rest) == [w.text] + Tokens(k, rest)
  {
    WordFound(k, w, rest);
  }

  lemma SpacedWordTokens(k: Classes, w: Word, rest: string)
    requires k.Valid() && Printable(k, w) && rest != [] && rest[0] in " ]"
    ensures Tokens(k, [' '] + (ShowWord(w) + rest)) == [w.text] + Tokens(k, rest)
  {
    Skipped(k, ' ', ShowWord(w) + rest);
    WordTokens(k, w, rest);
  }

  lemma MoreShown(ws: seq<Word>, after: string)
    ensures ShowMore(ws) != [] && ShowMore(ws)[0] in " ]"
    ensures ws != [] ==> ShowMore(ws) + after == [' '] + (ShowWord(ws[0]) + (ShowMore(ws[1..]) + after))
    ensures ws != [] ==> ShowWords(ws) + after == ShowWord(ws[0]) + (ShowMore(ws[1..]) + after)
    ensures ws == [] ==> ShowMore(ws) + after == [']'] + after && ShowWords(ws) + after == [']'] + after
  {
  }

  lemma {:induction false} MoreTokensPadded(k: Classes, ws: seq<Word>, after: string)
    requires k.Valid() && All(k.space, after) && forall i :: 0 <= i < |ws| ==> Printable(k, ws[i])
    ensures Tokens(k, ShowMore(ws) + after) == Texts(ws)
  {
    MoreShown(ws, after);
    if ws == [] {
      ClosingSkipped(k, after);
    } else {
      MoreTokensPadded(k, ws[1..], after);
      MoreShown(ws[1..], after);
      SpacedWordTokens(k, ws[0], ShowMore(ws[1..]) + after);
    }
  }

  lemma WordsTokens(k: Classes, ws: seq<Word>, after: string)
    requires k.Valid() && All(k.space, after) && forall i :: 0 <= i < |ws| ==> Printable(k, ws[i])
    ensures Tokens(k, ShowWords(ws) + after) == Texts(ws)
  {
    MoreShown(ws, after);
    if ws == [] {
      ClosingSkipped(k, after);
    } else {
      MoreTokensPadded(k, ws[1..], after);
      MoreShown(ws[1..], after);
      WordTokens(k, ws[0], ShowMore(ws[1..]) + after);
    }
  }

  lemma BracketTokens(k: Classes, ws: seq<Word>, after: string)
    requires k.Valid() && All(k.space, after) && forall i :: 0 <= i < |ws| ==> Printable(k, ws[i])
    ensures Tokens(k, ShowList(ws) + after) == Texts(ws)
  {
    ListOpens(ws, after);
    OpeningSkipped(k, ShowList(ws) + after, ShowWords(ws) + after);
    WordsTokens(k, ws, after);
  }

  lemma ListOpens(ws: seq<Word>, after: string)
    ensures ShowList(ws) + after == ['['] + (ShowWords(ws) + after)
  {
  }

  lemma OpeningSkipped(k: Classes, s: string, rest: string)
    requires k.Valid() && s == ['['] + rest
    ensures Tokens(k, s) == Tokens(k, rest)
  {
    Skipped(k, '[', rest);
  }

  lemma ListTokens(k: Classes, ws: seq<Word>)
    requires k.Valid() && forall i :: 0 <= i < |ws| ==> Printable(k, ws[i])
    ensures Tokens(k, ShowList(ws)) == Texts(ws)
  {
    BracketTokens(k, ws, "");
    assert ShowList(ws) + "" == ShowList(ws);
  }

  lemma PaddedTokens(k: Classes, before: string, ws: seq<Word>, after: string)
    requires k.Valid() && All(k.space, before) && All(k.space, after)
    requires forall i :: 0 <= i < |ws| ==> Printable(k, ws[i])
    ensures Tokens(k, before + (ShowList(ws) + after)) == Texts(ws)
  {
    BracketTokens(k, ws, after);
    SpacesBefore(k, before, ShowList(ws) + after);
  }

  /** Where what is in a padded list. */
  lemma PaddedChars(before: string, s: string, after: string)
    ensures var a := before + (['['] + s + after);
            && |a| == |before| + 1 + |s| + |after| && a[|before|] == '['
            && (forall n :: 0 <= n < |before| ==> a[n] == before[n])
            && (forall n :: |before| < n <= |before| + |s| ==> a[n] == s[n - |before| - 1])
            && (forall n :: |before| + |s| < n < |a| ==> a[n] == after[n - |before| - 1 - |s|])
  {
  }

  /** Only the one closing bracket closes. */
  lemma PaddedIsList(k: Classes, before: string, s: string, after: string)
    requires k.Valid() && Inner(s) && All(k.space, before) && All(k.space, after)
    ensures IsList(k, before + (['['] + s + after)) <==> '\n' !in s
  {
    var a := before + (['['] + s + after);
    var first, last := |before|, |before| + |s|;
    PaddedChars(before, s, after);
    assert a[first + 1..last] == s[..|s| - 1];
    assert a[..first] == before && a[last + 1..] == after;
    if '\n' !in s {
      assert Bracketed(k, a, first, last);
    }
    if i, j :| 0 <= i < j < |a| && Bracketed(k, a, i, j) {
      BracketsAt(k, before, s, after, i, j);
      assert s == a[first + 1..last] + [']'];
    }
  }

  lemma BracketsAt(k: Classes, before: string, s: string, after: string, i: nat, j: nat)
    requires k.Valid() && Inner(s) && All(k.space, before) && All(k.space, after)
    requires var a := before + (['['] + s + after); i < j < |a| && Bracketed(k, a, i, j)
    ensures i == |before| && j == |before| + |s|
  {
    var a := before + (['['] + s + after);
    PaddedChars(before, s, after);
    forall n | 0 <= n < i
      ensures k.space(a[n])
    {
      assert a[..i][n] == a[n];
    }
    forall n | j < n < |a|
      ensures k.space(a[n])
    {
      assert a[j + 1..][n - j - 1] == a[n];
    }
    assert forall c :: k.space(c) ==> c != '[' && c != ']';
  }

  lemma PaddedEnds(k: Classes, before: string, s: string, after: string)
    requires k.Valid() && Inner(s) && All(k.space, before) && All(k.space, after)
    ensures var a := before + (['['] + s + after); TrimQuotes(a) == a && ']' in a
  {
    var a := before + (['['] + s + after);
    PaddedChars(before, s, after);
    assert forall c :: k.space(c) ==> !IsQuote(c);
    assert a[|before| + |s|] == ']';
    NothingTrimmed(a);
  }

  /** Lists of words, with spaces around them, read back exactly if no word has a newline. */
  lemma PaddedListsReadBackExactly(k: Classes, before: string, ws: seq<Word>, after: string)
    requires k.Valid() && All(k.space, before) && All(k.space, after)
    requires forall i :: 0 <= i < |ws| ==> Printable(k, ws[i])
    ensures ArgumentToList(k, before + (ShowList(ws) + after)) == Texts(ws) <==> OneLine(ws)
  {
    var s := before + (ShowList(ws) + after);
    WordsAreInner(k, ws);
    PaddedIsList(k, before, ShowWords(ws), after);
    PaddedTokens(k, before, ws, after);
    if !OneLine(ws) {
      PaddedEnds(k, before, ShowWords(ws), after);
      TextsLength(ws);
      if |ws| == 1 {
        TextsHaveNoBracket(k, ws);
      }
    }
  }

  /** Lists of words, bare or quoted either way, read back as printed, exactly if no word has a newline. */
  lemma ListsReadBackExactly(k: Classes, ws: seq<Word>)
    requires k.Valid() && forall i :: 0 <= i < |ws| ==> Printable(k, ws[i])
    ensures ArgumentToList(k, ShowList(ws)) == Texts(ws) <==> OneLine(ws)
  {
    var s := ShowList(ws);
    WordsAreInner(k, ws);
    InnerIsList(k, ShowWords(ws));
    ListTokens(k, ws);
    if !OneLine(ws) {
      assert s[|s| - 1] == ']';
      NothingTrimmed(s);
      TextsLength(ws);
      if |ws| == 1 {
        TextsHaveNoBracket(k, ws);
        assert s[|s| - 1] in s;
      }
    }
  }

  // ---------- numbers ----------

  function ShowInt(n: int): string {
    if n < 0 then ['-'] + ShowNat(-n) else ShowNat(n)
  }

  /** `parse` for an integer type with these bounds: a sign and digits; `-` only for signed types. */
  function ParseInteger(s: string, low: int, high: int): Option<int> {
    if s == [] then None else
    var negative := s[0] == '-' && low < 0;
    var digits := if negative || s[0] == '+' then s[1..] else s;
    if digits == [] || !All(IsDigit, digits) then None else
    var magnitude: int := DigitsValue(digits);
    var n := if negative then -magnitude else magnitude;
    if low <= n <= high then Some(n) else None
  }

  const I64_MIN := -0x8000_0000_0000_0000
  const I64_MAX := 0x7fff_ffff_ffff_ffff

  /** A number printed in decimal parses back exactly if the type can hold it. */
  lemma NumbersReadBackExactly(n: int, low: int, high: int)
    requires low <= 0 <= high
    ensures ParseInteger(ShowInt(n), low, high) == if low <= n <= high then Some(n) else None
  {
    DigitsReadBack(if n < 0 then -n else n);
    if n < 0 {
      var digits := ShowNat(-n);
      assert ShowInt(n)[1..] == digits;
      assert !IsDigit(ShowInt(n)[0]);
    } else {
      assert IsDigit(ShowNat(n)[0]);
    }
  }

  // ---------- typed values ----------

  datatype ArgumentError = NotExpected(key: string) | TypeOutOfRange | BadValue(key: string, text: string)

  /** `collect::<Result<Vec<_>, _>>`: the first text that does not parse is the error. */
  function ParseAll<T>(key: string, texts: seq<string>, parse: string -> Option<T>): Result<seq<T>, ArgumentError> {
    if texts == [] then Ok([])
    else
      match parse(texts[0])
      case None => Err(BadValue(key, texts[0]))
      case Some(v) =>
        match ParseAll(key, texts[1..], parse)
        case Err(e) => Err(e)
        case Ok(vs) => Ok([v] + vs)
  }

  function ParseBool(s: string): Option<bool> {
    if s == "true" then Some(true) else if s == "false" then Some(false) else None
  }

  function ParseI64(s: string): Option<int> {
    ParseInteger(s, I64_MIN, I64_MAX)
  }

  function ParseByte(s: string): Option<bv8> {
    match ParseInteger(s, 0, 255)
    case None => None
    case Some(n) => ByteOf(n)
  }

  function ByteOf(n: int): Option<bv8> {
    if 0 <= n <= 255 then Some(n as bv8) else None
  }

  /** What stands for a number: digits, with or without a sign in front, a minus only where negative numbers are. */
  ghost predicate Numeral(s: string, signed: bool, n: int) {
    || (s != [] && All(IsDigit, s) && n == DigitsValue(s))
    || (|s| > 1 && s[0] == '+' && All(IsDigit, s[1..]) && n == DigitsValue(s[1..]))
    || (|s| > 1 && s[0] == '-' && signed && All(IsDigit, s[1..]) && n == 0 - DigitsValue(s[1..]))
  }

  /** An integer is read exactly from its numerals, within the bounds. */
  lemma IntegersReadExactly(s: string, low: int, high: int, n: int)
    ensures ParseInteger(s, low, high) == Some(n) <==> Numeral(s, low < 0, n) && low <= n <= high
  {
    if s != [] {
      assert !IsDigit('+') && !IsDigit('-');
      assert All(IsDigit, s) ==> IsDigit(s[0]);
    }
  }

  lemma {:induction false} AllParsed<T(!new)>(key: string, texts: seq<string>, parse: string -> Option<T>)
    ensures match ParseAll(key, texts, parse)
            case Ok(vs) => |vs| == |texts| && forall i :: 0 <= i < |texts| ==> parse(texts[i]) == Some(vs[i])
            case Err(e) => exists i :: FirstUnread(texts, parse, i) && e == BadValue(key, texts[i])
  {
    if texts != [] {
      var rest := texts[1..];
      AllParsed(key, rest, parse);
      match parse(texts[0])
      case None => assert FirstUnread(texts, parse, 0);
      case Some(v) =>
        match ParseAll(key, rest, parse)
        case Ok(vs) =>
          assert forall i :: 0 < i < |texts| ==> texts[i] == rest[i - 1];
        case Err(e) =>
          var i :| FirstUnread(rest, parse, i) && e == BadValue(key, rest[i]);
          assert forall j :: 0 < j <= i ==> texts[j] == rest[j - 1];
          assert FirstUnread(texts, parse, i + 1);
    }
  }

  ghost predicate FirstUnread<T(!new)>(texts: seq<string>, parse: string -> Option<T>, i: int) {
    0 <= i < |texts| && parse(texts[i]).None? && forall j :: 0 <= j < i ==> parse(texts[j]).Some?
  }

  datatype Setup = Setup(classes: Classes, parseFloat: string -> Option<bv64>)

  function ToChannel<T>(r: Result<seq<T>, ArgumentError>, wrap: seq<T> -> TypedData): Result<TypedData, ArgumentError> {
    match r case Ok(vs) => Ok(wrap(vs)) case Err(e) => Err(e)
  }

  function ParseValue(c: Setup, key: string, value: string, spec: Spec): Result<TypedData, ArgumentError> {
    var texts := ArgumentToList(c.classes, value);
    match spec
    case None => Err(TypeOutOfRange)
    case Some(StringType) => Ok(Strings(texts))
    case Some(BoolType) => ToChannel(ParseAll(key, texts, ParseBool), vs => Booleans(vs))
    case Some(IntType) => ToChannel(ParseAll(key, texts, ParseI64), vs => Integers(vs))
    case Some(FloatType) => ToChannel(ParseAll(key, texts, c.parseFloat), vs => Floats(vs))
    case Some(BytesType) => ToChannel(ParseAll(key, texts, ParseByte), vs => Bytes(vs))
  }

  /** The text stands for one value of the type. */
  ghost predicate ReadsAs(c: Setup, text: string, d: TypedData, i: nat)
    requires i < Len(d)
  {
    match d
    case Strings(s) => s[i] == text
    case Booleans(s) => text == if s[i] then "true" else "false"
    case Integers(s) => Numeral(text, true, s[i]) && -0x8000_0000_0000_0000 <= s[i] < 0x8000_0000_0000_0000
    case Floats(s) => c.parseFloat(text) == Some(s[i])
    case Bytes(s) => exists n :: Numeral(text, false, n) && n <= 255 && s[i] == n as bv8
  }

  ghost predicate ReadsAll(c: Setup, texts: seq<string>, d: TypedData) {
    Len(d) == |texts| && forall i :: 0 <= i < |texts| ==> ReadsAs(c, texts[i], d, i)
  }

  /** The text stands for no value of the type. */
  ghost predicate Unreadable(c: Setup, text: string, type_: ChannelType) {
    match type_
    case StringType => false
    case BoolType => text != "true" && text != "false"
    case IntType => forall n :: Numeral(text, true, n) ==> !(-0x8000_0000_0000_0000 <= n < 0x8000_0000_0000_0000)
    case FloatType => c.parseFloat(text).None?
    case BytesType => forall n :: Numeral(text, false, n) ==> n > 255
  }

  lemma ByteReads(text: string)
    ensures match ParseByte(text)
            case Some(b) => exists n :: Numeral(text, false, n) && n <= 255 && b == n as bv8
            case None => forall n :: Numeral(text, false, n) ==> n > 255
  {
    forall n
      ensures ParseInteger(text, 0, 255) == Some(n) <==> Numeral(text, false, n) && n <= 255
    {
      IntegersReadExactly(text, 0, 255, n);
    }
    if ParseInteger(text, 0, 255).Some? {
      var n := ParseInteger(text, 0, 255).value;
      assert Numeral(text, false, n) && ParseByte(text) == Some(n as bv8);
    }
  }

  lemma IntReads(text: string)
    ensures match ParseI64(text)
            case Some(n) => Numeral(text, true, n) && I64_MIN <= n <= I64_MAX
            case None => forall n :: Numeral(text, true, n) ==> !(I64_MIN <= n <= I64_MAX)
  {
    forall n
      ensures ParseI64(text) == Some(n) <==> Numeral(text, true, n) && I64_MIN <= n <= I64_MAX
    {
      IntegersReadExactly(text, I64_MIN, I64_MAX, n);
    }
  }

  ghost predicate FirstUnreadable(c: Setup, texts: seq<string>, type_: ChannelType, i: int) {
    0 <= i < |texts| && Unreadable(c, texts[i], type_) && forall j :: 0 <= j < i ==> !Unreadable(c, texts[j], type_)
  }

  /** A value is read for the type of its input: one element for each text, which is what the text stands for;
      or the first text that stands for none is the error. */
  lemma ValuesRead(c: Setup, key: string, value: string, type_: ChannelType)
    ensures var texts := ArgumentToList(c.classes, value);
            match ParseValue(c, key, value, Some(type_))
            case Ok(d) => KindMatches(KindOf(d), Some(type_)) && ReadsAll(c, texts, d)
            case Err(e) => exists i :: FirstUnreadable(c, texts, type_, i) && e == BadValue(key, texts[i])
  {
    var texts := ArgumentToList(c.classes, value);
    match type_
    case StringType =>
    case BoolType =>
      AllParsed(key, texts, ParseBool);
      BoolErrors(c, key, texts);
    case IntType =>
      AllParsed(key, texts, ParseI64);
      forall text: string
        ensures match ParseI64(text)
                case Some(n) => Numeral(text, true, n) && I64_MIN <= n <= I64_MAX
                case None => Unreadable(c, text, IntType)
      {
        IntReads(text);
      }
      UnreadAgree(c, key, texts, IntType, ParseI64);
    case FloatType =>
      AllParsed(key, texts, c.parseFloat);
      UnreadAgree(c, key, texts, FloatType, c.parseFloat);
    case BytesType =>
      AllParsed(key, texts, ParseByte);
      forall text: string
        ensures match ParseByte(text)
                case Some(b) => exists n :: Numeral(text, false, n) && n <= 255 && b == n as bv8
                case None => Unreadable(c, text, BytesType)
      {
        ByteReads(text);
      }
      UnreadAgree(c, key, texts, BytesType, ParseByte);
  }

  lemma BoolErrors(c: Setup, key: string, texts: seq<string>)
    ensures ParseAll(key, texts, ParseBool).Err? ==>
              exists i :: FirstUnreadable(c, texts, BoolType, i) && ParseAll(key, texts, ParseBool).error == BadValue(key, texts[i])
  {
    AllParsed(key, texts, ParseBool);
    UnreadAgree(c, key, texts, BoolType, ParseBool);
  }

  lemma UnreadAgree<T(!new)>(c: Setup, key: string, texts: seq<string>, type_: ChannelType, parse: string -> Option<T>)
    requires forall text :: parse(text).None? <==> Unreadable(c, text, type_)
    ensures forall i :: FirstUnread(texts, parse, i) ==> FirstUnreadable(c, texts, type_, i)
  {
  }

  function ParseArgument(c: Setup, inputs: map<string, Spec>, key: string, value: string): Result<TypedData, ArgumentError> {
    if key !in inputs then Err(NotExpected(key)) else ParseValue(c, key, value, inputs[key])
  }

  /** An argument is read for the type its input is declared with; one that is not declared is refused. */
  lemma ArgumentsRead(c: Setup, inputs: map<string, Spec>, key: string, value: string)
    ensures key !in inputs ==> ParseArgument(c, inputs, key, value) == Err(NotExpected(key))
    ensures key in inputs && inputs[key].None? ==> ParseArgument(c, inputs, key, value) == Err(TypeOutOfRange)
    ensures key in inputs && inputs[key].Some? ==>
              var texts := ArgumentToList(c.classes, value);
              match ParseArgument(c, inputs, key, value)
              case Ok(d) => KindMatches(KindOf(d), inputs[key]) && ReadsAll(c, texts, d)
              case Err(e) => exists i :: FirstUnreadable(c, texts, inputs[key].value, i) && e == BadValue(key, texts[i])
  {
    if key in inputs && inputs[key].Some? {
      ValuesRead(c, key, value, inputs[key].value);
    }
  }

  function ErrorOf(c: Setup, inputs: map<string, Spec>): ((string, string)) -> Option<ArgumentError> {
    (a: (string, string)) => match ParseArgument(c, inputs, a.0, a.1) case Ok(_) => None case Err(e) => Some(e)
  }

  ghost predicate Parses(c: Setup, inputs: map<string, Spec>, arguments: seq<(string, string)>) {
    forall i :: 0 <= i < |arguments| ==> ParseArgument(c, inputs, arguments[i].0, arguments[i].1).Ok?
  }

  /** The channels in the order of the arguments, later ones replacing earlier ones of the same name. */
  function Gather(c: Setup, inputs: map<string, Spec>, arguments: seq<(string, string)>): map<string, TypedData>
    requires Parses(c, inputs, arguments)
  {
    if arguments == [] then map[]
    else
      var last := |arguments| - 1;
      Gather(c, inputs, arguments[..last])
        [arguments[last].0 := ParseArgument(c, inputs, arguments[last].0, arguments[last].1).value]
  }

  lemma AllParse(c: Setup, inputs: map<string, Spec>, arguments: seq<(string, string)>)
    ensures Collect(arguments, ErrorOf(c, inputs)) == [] <==> Parses(c, inputs, arguments)
  {
    var f := ErrorOf(c, inputs);
    var errors := Collect(arguments, f);
    if errors != [] {
      CollectHas(arguments, f, errors[0]);
    }
    forall i | 0 <= i < |arguments| && f(arguments[i]).Some?
      ensures errors != []
    {
      CollectHas(arguments, f, f(arguments[i]).value);
    }
  }

  /** Every error is reported, in the order of the arguments; only without errors is there a stream. */
  function ParseArguments(c: Setup, inputs: map<string, Spec>, arguments: seq<(string, string)>): Result<map<string, TypedData>, seq<ArgumentError>> {
    var errors := Collect(arguments, ErrorOf(c, inputs));
    if errors != [] then Err(errors)
    else
      AllParse(c, inputs, arguments);
      Ok(Gather(c, inputs, arguments))
  }

  /** The errors are those of the arguments that do not parse, in the order of the arguments. */
  lemma ErrorsInOrder(c: Setup, inputs: map<string, Spec>, arguments: seq<(string, string)>) returns (indices: seq<int>)
    requires ParseArguments(c, inputs, arguments).Err?
    ensures var errors := ParseArguments(c, inputs, arguments).error;
            && |errors| == |indices| > 0
            && (forall k :: 0 <= k < |indices| ==>
                  0 <= indices[k] < |arguments|
                  && ParseArgument(c, inputs, arguments[indices[k]].0, arguments[indices[k]].1) == Err(errors[k]))
            && (forall k, l :: 0 <= k < l < |indices| ==> indices[k] < indices[l])
            && (forall i :: 0 <= i < |arguments| && ParseArgument(c, inputs, arguments[i].0, arguments[i].1).Err? ==> i in indices)
  {
    indices := CollectsInOrder(arguments, ErrorOf(c, inputs));
    forall i | 0 <= i < |arguments|
      ensures ParseArgument(c, inputs, arguments[i].0, arguments[i].1).Err? <==> ErrorOf(c, inputs)(arguments[i]).Some?
    {
    }
  }

  /** `latest` is the last argument with this name. */
  ghost predicate LastNamed(arguments: seq<(string, string)>, name: string, latest: int) {
    && 0 <= latest < |arguments| && arguments[latest].0 == name
    && forall j :: latest < j < |arguments| ==> arguments[j].0 != name
  }

  ghost predicate Named(arguments: seq<(string, string)>, name: string) {
    exists i :: 0 <= i < |arguments| && arguments[i].0 == name
  }

  lemma NamedBySteps(arguments: seq<(string, string)>, name: string)
    requires arguments != []
    ensures var last := |arguments| - 1;
            && (Named(arguments, name) <==> arguments[last].0 == name || Named(arguments[..last], name))
            && (forall i :: LastNamed(arguments, name, i) ==> i == last || LastNamed(arguments[..last], name, i))
  {
    var last := |arguments| - 1;
    var rest := arguments[..last];
    if i :| 0 <= i < |rest| && rest[i].0 == name {
      assert arguments[i].0 == name;
    }
    if i :| 0 <= i < |arguments| && arguments[i].0 == name {
      assert i < last ==> rest[i].0 == name;
    }
  }

  /** A stream has exactly the channels that were named, each with the value of the last argument of that
      name. */
  lemma {:induction false} GatherHas(c: Setup, inputs: map<string, Spec>, arguments: seq<(string, string)>, name: string)
    requires Parses(c, inputs, arguments)
    ensures name in Gather(c, inputs, arguments) <==> Named(arguments, name)
    decreases |arguments|
  {
    if arguments != [] {
      assert Parses(c, inputs, arguments[..|arguments| - 1]);
      GatherHas(c, inputs, arguments[..|arguments| - 1], name);
      NamedBySteps(arguments, name);
    }
  }

  lemma {:induction false} GatherLast(c: Setup, inputs: map<string, Spec>, arguments: seq<(string, string)>, name: string, i: int)
    requires Parses(c, inputs, arguments) && LastNamed(arguments, name, i)
    ensures name in Gather(c, inputs, arguments)
    ensures Ok(Gather(c, inputs, arguments)[name]) == ParseArgument(c, inputs, name, arguments[i].1)
    decreases |arguments|
  {
    var last := |arguments| - 1;
    NamedBySteps(arguments, name);
    if i < last {
      assert Parses(c, inputs, arguments[..last]);
      GatherLast(c, inputs, arguments[..last], name, i);
    }
  }

  lemma ParsedKind(c: Setup, key: string, value: string, spec: Spec)
    requires ParseValue(c, key, value, spec).Ok?
    ensures spec.Some? && KindMatches(KindOf(ParseValue(c, key, value, spec).value), spec)
  {
  }

  // ---------- lists of numbers ----------

  function IntWords(ns: seq<int>): seq<Word> {
    if ns == [] then [] else [Bare(ShowInt(ns[0]))] + IntWords(ns[1..])
  }

  lemma ShownIntIsToken(k: Classes, n: int)
    requires k.Valid()
    ensures Printable(k, Bare(ShowInt(n))) && '\n' !in ShowInt(n)
  {
    DigitsReadBack(if n < 0 then -n else n);
  }

  lemma ParsesFirst(key: string, text: string, texts: seq<string>, n: int, ns: seq<int>)
    requires ParseI64(text) == Some(n) && ParseAll(key, texts, ParseI64) == Ok(ns)
    ensures ParseAll(key, [text] + texts, ParseI64) == Ok([n] + ns)
  {
    assert ([text] + texts)[1..] == texts;
  }

  lemma TextsFirst(w: Word, ws: seq<Word>)
    ensures Texts([w] + ws) == [w.text] + Texts(ws)
  {
    assert ([w] + ws)[1..] == ws;
  }

  lemma {:induction false} IntWordsPrint(k: Classes, ns: seq<int>)
    requires k.Valid()
    ensures |IntWords(ns)| == |ns|
    ensures (forall i :: 0 <= i < |IntWords(ns)| ==> Printable(k, IntWords(ns)[i])) && OneLine(IntWords(ns))
  {
    if ns != [] {
      IntWordsPrint(k, ns[1..]);
      ShownIntIsToken(k, ns[0]);
    }
  }

  lemma IntReadsBack(n: int)
    requires I64_MIN <= n <= I64_MAX
    ensures ParseI64(ShowInt(n)) == Some(n)
  {
    NumbersReadBackExactly(n, I64_MIN, I64_MAX);
  }

  lemma IntWordsFirst(n: int, ns: seq<int>)
    ensures Texts(IntWords([n] + ns)) == [ShowInt(n)] + Texts(IntWords(ns))
  {
    assert ([n] + ns)[1..] == ns;
    TextsFirst(Bare(ShowInt(n)), IntWords(ns));
  }

  lemma {:induction false} IntsParseBack(key: string, ns: seq<int>)
    requires forall i :: 0 <= i < |ns| ==> I64_MIN <= ns[i] <= I64_MAX
    ensures ParseAll(key, Texts(IntWords(ns)), ParseI64) == Ok(ns)
  {
    if ns != [] {
      var n, more := ns[0], ns[1..];
      IntsParseBack(key, more);
      IntReadsBack(n);
      ParsesFirst(key, ShowInt(n), Texts(IntWords(more)), n, more);
      IntWordsFirst(n, more);
      assert ns == [n] + more;
    }
  }

  /** Any list of 64-bit integers printed as `[1 -2 ...]` parses back as the argument of an integer input. */
  lemma IntegersRoundTrip(c: Setup, key: string, ns: seq<int>)
    requires c.classes.Valid() && forall i :: 0 <= i < |ns| ==> -0x8000_0000_0000_0000 <= ns[i] < 0x8000_0000_0000_0000
    ensures ParseValue(c, key, ShowList(IntWords(ns)), Some(IntType)) == Ok(Integers(ns))
  {
    IntWordsPrint(c.classes, ns);
    IntsParseBack(key, ns);
    ListsReadBackExactly(c.classes, IntWords(ns));
  }

  /** And any list of one-line strings over the alphabet of quoted words as that of a string input. */
  lemma StringsRoundTrip(c: Setup, key: string, ws: seq<Word>)
    requires c.classes.Valid() && forall i :: 0 <= i < |ws| ==> Printable(c.classes, ws[i])
    ensures ParseValue(c, key, ShowList(ws), Some(StringType)) == Ok(Strings(Texts(ws))) <==> OneLine(ws)
  {
    ListsReadBackExactly(c.classes, ws);
  }
}
