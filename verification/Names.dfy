/** Function names. Both registries check them with one regular expression, Avery after
limiting the number of bytes, Quinn after limiting the number of characters.
*/
module Names {
  import opened Results

  datatype Regex = Class(p: char -> bool) | Cat(a: Regex, b: Regex) | Alt(a: Regex, b: Regex) | Opt(a: Regex) | Plus(a: Regex)

  /** The whole of `s` is in the language of `r`. */
  predicate Matches(r: Regex, s: string)
    decreases r, |s|
  {
    match r
    case Class(p) => |s| == 1 && p(s[0])
    case Cat(a, b) => exists i :: 0 <= i <= |s| && Matches(a, s[..i]) && Matches(b, s[i..])
    case Alt(a, b) => Matches(a, s) || Matches(b, s)
    case Opt(a) => s == [] || Matches(a, s)
    case Plus(a) => Matches(a, s) || exists i :: 0 < i < |s| && Matches(a, s[..i]) && Matches(r, s[i..])
  }

  predicate Lower(c: char) { 'a' <= c <= 'z' }

  predicate Alnum(c: char) { Lower(c) || '0' <= c <= '9' }

  predicate AlnumDash(c: char) { Alnum(c) || c == '-' }

  /** `[a-z0-9\-]?[a-z0-9]+` */
  const UNIT := Cat(Opt(Class(AlnumDash)), Plus(Class(Alnum)))

  /** `[a-z][a-z0-9]{1,}([a-z0-9\-]?[a-z0-9]+)+` or `[a-z][a-z0-9]{2,}` */
  const NAME := Alt(
    Cat(Class(Lower), Cat(Plus(Class(Alnum)), Plus(UNIT))),
    Cat(Class(Lower), Cat(Class(Alnum), Plus(Class(Alnum)))))

  /** What may follow the first two characters: no two dashes in a row, no dash at the end. */
  ghost predicate TailShape(s: string) {
    && s != []
    && (forall i :: 0 <= i < |s| ==> AlnumDash(s[i]))
    && (forall i :: 0 <= i < |s| - 1 ==> s[i] != '-' || s[i + 1] != '-')
    && Alnum(s[|s| - 1])
  }

  ghost predicate NameShape(s: string) {
    && |s| >= 3
    && Lower(s[0]) && Alnum(s[1]) && Alnum(s[|s| - 1])
    && (forall i :: 0 <= i < |s| ==> AlnumDash(s[i]))
    && (forall i :: 0 <= i < |s| - 1 ==> s[i] != '-' || s[i + 1] != '-')
  }

  lemma {:induction false} PlusOfClass(p: char -> bool, s: string)
    ensures Matches(Plus(Class(p)), s) <==> s != [] && forall i :: 0 <= i < |s| ==> p(s[i])
    decreases |s|
  {
    if |s| > 1 {
      forall i | 0 < i < |s|
        ensures Matches(Class(p), s[..i]) && Matches(Plus(Class(p)), s[i..]) ==> forall i :: 0 <= i < |s| ==> p(s[i])
      {
        PlusOfClass(p, s[i..]);
        assert s == s[..i] + s[i..];
      }
      PlusOfClass(p, s[1..]);
      assert Matches(Class(p), s[..1]) <==> p(s[0]);
      assert s == [s[0]] + s[1..];
    }
  }

  lemma CatIntro(a: Regex, b: Regex, s: string, i: nat)
    requires i <= |s| && Matches(a, s[..i]) && Matches(b, s[i..])
    ensures Matches(Cat(a, b), s)
  {
  }

  lemma CatElim(a: Regex, b: Regex, s: string) returns (i: nat)
    requires Matches(Cat(a, b), s)
    ensures i <= |s| && Matches(a, s[..i]) && Matches(b, s[i..])
  {
    i :| 0 <= i <= |s| && Matches(a, s[..i]) && Matches(b, s[i..]);
  }

  ghost predicate UnitShape(s: string) {
    && s != [] && AlnumDash(s[0]) && (|s| == 1 ==> Alnum(s[0]))
    && forall i :: 1 <= i < |s| ==> Alnum(s[i])
  }

  lemma UnitLanguage(s: string)
    ensures Matches(UNIT, s) <==> UnitShape(s)
  {
    if Matches(UNIT, s) {
      var i := CatElim(UNIT.a, UNIT.b, s);
      PlusOfClass(Alnum, s[i..]);
      assert forall j :: i <= j < |s| ==> s[j] == s[i..][j - i];
    }
    if UnitShape(s) {
      var i := if |s| == 1 then 0 else 1;
      PlusOfClass(Alnum, s[i..]);
      assert s[..i] == [] || s[..i] == [s[0]];
      CatIntro(UNIT.a, UNIT.b, s, i);
    }
  }

  lemma {:induction false} UnitsLanguage(s: string)
    ensures Matches(Plus(UNIT), s) <==> TailShape(s)
    decreases |s|
  {
    UnitLanguage(s);
    forall i | 0 < i < |s|
      ensures Matches(UNIT, s[..i]) && Matches(Plus(UNIT), s[i..]) ==> TailShape(s)
    {
      UnitLanguage(s[..i]);
      UnitsLanguage(s[i..]);
      if Matches(UNIT, s[..i]) && TailShape(s[i..]) {
        JoinTail(s, i);
      }
    }
    if TailShape(s) && !Matches(UNIT, s) {
      var i := if s[0] == '-' then 2 else 1;
      UnitLanguage(s[..i]);
      UnitsLanguage(s[i..]);
      assert Matches(UNIT, s[..i]) && TailShape(s[i..]);
    }
  }

  /** A unit in front of a tail is a tail. */
  lemma JoinTail(s: string, i: nat)
    requires 0 < i < |s| && TailShape(s[i..])
    requires AlnumDash(s[0]) && (i == 1 ==> Alnum(s[0])) && forall j :: 1 <= j < i ==> Alnum(s[..i][j])
    ensures TailShape(s)
  {
    assert s == s[..i] + s[i..];
    forall j | 0 <= j < |s|
      ensures AlnumDash(s[j])
    {
      if i <= j {
        assert s[j] == s[i..][j - i];
      } else {
        assert s[j] == s[..i][j];
      }
    }
    forall j | 0 <= j < |s| - 1
      ensures s[j] != '-' || s[j + 1] != '-'
    {
      if i <= j {
        assert s[j] == s[i..][j - i] && s[j + 1] == s[i..][j + 1 - i];
      } else if j > 0 {
        assert s[j] == s[..i][j];
      } else if i > 1 {
        assert s[1] == s[..i][1];
      }
    }
  }

  lemma LongNameShape(s: string)
    requires Matches(NAME.a, s)
    ensures NameShape(s)
  {
    var i := CatElim(NAME.a.a, NAME.a.b, s);
    var t := s[i..];
    var j := CatElim(NAME.a.b.a, NAME.a.b.b, t);
    PlusOfClass(Alnum, t[..j]);
    UnitsLanguage(t[j..]);
    assert t[j..] == s[1 + j..];
    assert forall k :: 1 <= k < 1 + j ==> s[k] == t[..j][k - 1];
    assert s[0] == s[..i][0];
    TailInName(s, 1 + j);
  }

  lemma ShortNameShape(s: string)
    requires Matches(NAME.b, s)
    ensures NameShape(s)
  {
    var i := CatElim(NAME.b.a, NAME.b.b, s);
    var t := s[i..];
    var j := CatElim(NAME.b.b.a, NAME.b.b.b, t);
    PlusOfClass(Alnum, t[j..]);
    assert s[0] == s[..i][0] && s[1] == t[..j][0];
    assert forall k :: 2 <= k < |s| ==> s[k] == t[j..][k - 2];
  }

  lemma ShapeIsLongName(s: string)
    requires NameShape(s)
    ensures Matches(NAME.a, s)
  {
    var t := s[1..];
    PlusOfClass(Alnum, t[..1]);
    UnitsLanguage(t[1..]);
    assert t[1..] == s[2..];
    CatIntro(NAME.a.b.a, NAME.a.b.b, t, 1);
    assert s[..1] == [s[0]];
    CatIntro(NAME.a.a, NAME.a.b, s, 1);
  }

  /** The expression describes exactly the names of this shape. */
  lemma NameLanguage(s: string)
    ensures Matches(NAME, s) <==> NameShape(s)
  {
    if Matches(NAME.a, s) {
      LongNameShape(s);
    }
    if Matches(NAME.b, s) {
      ShortNameShape(s);
    }
    if NameShape(s) {
      ShapeIsLongName(s);
    }
  }

  lemma TailInName(s: string, j: nat)
    requires 2 <= j < |s| && Lower(s[0]) && TailShape(s[j..])
    requires forall i :: 1 <= i < j ==> Alnum(s[i])
    ensures NameShape(s)
  {
    forall i | j <= i < |s|
      ensures AlnumDash(s[i]) && (i < |s| - 1 ==> s[i] != '-' || s[i + 1] != '-')
    {
      assert s[i] == s[j..][i - j];
      if i < |s| - 1 {
        assert s[i + 1] == s[j..][i + 1 - j];
      }
    }
    assert s[|s| - 1] == s[j..][|s| - 1 - j];
  }

  const MAX_LEN := 128
  const MIN_LEN := 3

  datatype NameError = TooLong | TooShort | InvalidCharacters

  function Utf8Size(c: char): nat {
    if c as int < 0x80 then 1 else if c as int < 0x800 then 2 else if c as int < 0x1_0000 then 3 else 4
  }

  /** `str::len`, in bytes. */
  function ByteLength(s: string): nat {
    if s == [] then 0 else Utf8Size(s[0]) + ByteLength(s[1..])
  }

  function Count(p: char -> bool, s: string): nat {
    if s == [] then 0 else (if p(s[0]) then 1 else 0) + Count(p, s[1..])
  }

  /** UTF-8 takes a byte for each character, a second from U+0080 on, a third from U+0800 and a fourth from
      U+10000. */
  lemma {:induction false} BytesCounted(s: string)
    ensures ByteLength(s) == |s| + Count(c => c as int >= 0x80, s) + Count(c => c as int >= 0x800, s) + Count(c => c as int >= 0x1_0000, s)
  {
    if s != [] {
      BytesCounted(s[1..]);
    }
  }

  function ValidateByBytes(name: string): Result<(), NameError> {
    if ByteLength(name) > MAX_LEN then Err(TooLong)
    else if ByteLength(name) < MIN_LEN then Err(TooShort)
    else if Matches(NAME, name) then Ok(())
    else Err(InvalidCharacters)
  }

  function ValidateByChars(name: string): Result<string, NameError> {
    if |name| > MAX_LEN then Err(TooLong)
    else if |name| < MIN_LEN then Err(TooShort)
    else if Matches(NAME, name) then Ok(name)
    else Err(InvalidCharacters)
  }

  lemma {:induction false} ByteLengthOfAscii(s: string)
    ensures ByteLength(s) >= |s|
    ensures (forall i :: 0 <= i < |s| ==> AlnumDash(s[i])) ==> ByteLength(s) == |s|
  {
    if s != [] {
      ByteLengthOfAscii(s[1..]);
      assert s == [s[0]] + s[1..];
    }
  }

  /** Both registries accept the same names: 3 to 128 characters of this shape. */
  lemma ValidatorsAgree(name: string)
    ensures ValidateByBytes(name).Ok? <==> NameShape(name) && |name| <= 128
    ensures ValidateByChars(name).Ok? <==> NameShape(name) && |name| <= 128
    ensures ValidateByChars(name).Ok? ==> ValidateByChars(name).value == name
  {
    NameLanguage(name);
    ByteLengthOfAscii(name);
  }

  /** They disagree at most on why a name is refused, and then the name has a multi-byte character. */
  lemma ReasonsDiffer(name: string)
    requires ValidateByBytes(name).Err? && ValidateByChars(name).Err?
    requires ValidateByBytes(name).error != ValidateByChars(name).error
    ensures |name| < ByteLength(name)
    ensures exists i :: 0 <= i < |name| && name[i] as int >= 0x80
  {
    ByteLengthOfAscii(name);
    SingleBytes(name);
  }

  lemma {:induction false} SingleBytes(s: string)
    ensures (forall i :: 0 <= i < |s| ==> (s[i] as int) < 0x80) ==> ByteLength(s) == |s|
  {
    if s != [] {
      SingleBytes(s[1..]);
      assert s == [s[0]] + s[1..];
    }
  }
}
