/** What the Windows installer edits in the registry: the search path and the list of files to delete at
the next start. Each edit is a transaction.
*/
module WindowsRegistry {
  import opened Results
  import opened Sequences
  import Strings

  // ---------- the search path ----------

  predicate EndsWith(s: string, t: string) {
    |t| <= |s| && s[|s| - |t|..] == t
  }

  /** Every occurrence of a text that is not empty, from left to right, replaced by nothing. */
  function RemoveAll(s: string, t: string): (r: string)
    requires t != []
    ensures |r| <= |s|
  {
    if s == [] then ""
    else if t <= s then RemoveAll(s[|t|..], t)
    else [s[0]] + RemoveAll(s[1..], t)
  }

  function Add(path: string, location: string): string {
    if Strings.Contains(path, location) then path else path + (";" + location)
  }

  /** The test that decides whether anything is removed. */
  predicate IsOnPath(path: string, location: string) {
    EndsWith(path, location) || Strings.Contains(path, ";" + location + ";")
  }

  /** The location ends the path, or stands between two semicolons in it. */
  ghost predicate Listed(path: string, location: string) {
    || (exists before: string :: path == before + location)
    || (exists before: string, after: string :: path == before + (";" + location + ";") + after)
  }

  lemma OnPathExactly(path: string, location: string)
    ensures IsOnPath(path, location) <==> Listed(path, location)
  {
    Strings.ContainsExactly(path, ";" + location + ";");
    if EndsWith(path, location) {
      assert path == path[..|path| - |location|] + location;
    }
    if before: string :| path == before + location {
      assert path[|path| - |location|..] == location;
    }
  }

  function Remove(path: string, location: string): string {
    if IsOnPath(path, location) then RemoveAll(path, ";" + location) else path
  }

  lemma {:induction false} NothingRemoved(s: string, t: string)
    requires t != [] && !Strings.Contains(s, t)
    ensures RemoveAll(s, t) == s
  {
    if s != [] {
      if t <= s {
        assert Strings.OccursAt(s, t, 0);
      }
      forall i | 0 <= i <= |s[1..]|
        ensures !Strings.OccursAt(s[1..], t, i)
      {
        assert s[1..][i..] == s[i + 1..];
        OccursLater(s, t, i);
      }
      NothingRemoved(s[1..], t);
    }
  }

  lemma OccursLater(s: string, t: string, i: nat)
    requires s != []
    ensures Strings.OccursAt(s[1..], t, i) <==> Strings.OccursAt(s, t, i + 1)
  {
    if i + 1 + |t| <= |s| {
      assert s[1..][i..i + |t|] == s[i + 1..i + 1 + |t|];
    }
  }

  lemma OccursAtStart(s: string, t: string)
    ensures Strings.OccursAt(s, t, 0) <==> t <= s
  {
    if |t| <= |s| {
      assert s[0..0 + |t|] == s[..|t|];
    }
  }

  lemma {:induction false} SomethingRemoved(s: string, t: string, i: nat)
    requires t != [] && Strings.OccursAt(s, t, i)
    ensures |RemoveAll(s, t)| < |s|
    decreases |s|
  {
    OccursAtStart(s, t);
    if !(t <= s) {
      OccursLater(s, t, i - 1);
      SomethingRemoved(s[1..], t, i - 1);
    }
  }

  /** Removal changes a text exactly if what is removed occurs in it. */
  lemma RemovesExactly(s: string, t: string)
    requires t != []
    ensures RemoveAll(s, t) == s <==> !Strings.Contains(s, t)
  {
    if i :| 0 <= i <= |s| && Strings.OccursAt(s, t, i) {
      SomethingRemoved(s, t, i);
    } else {
      NothingRemoved(s, t);
    }
  }

  /** Text without a semicolon, before something to remove that begins with one, stays. */
  lemma {:induction false} KeepsBefore(s: string, location: string, rest: string)
    requires ';' !in s
    ensures RemoveAll(s + rest, ";" + location) == s + RemoveAll(rest, ";" + location)
    decreases |s|
  {
    if s == [] {
      assert s + rest == rest;
    } else {
      assert s[0] in s;
      forall c | c in s[1..]
        ensures c in s
      {
      }
      assert (s + rest)[0] == s[0] && (s + rest)[1..] == s[1..] + rest;
      KeepsBefore(s[1..], location, rest);
    }
  }

  // ---------- entries ----------

  /** The entries after the first, each with its semicolon. */
  function Rest(entries: seq<string>): string {
    if entries == [] then "" else ";" + (entries[0] + Rest(entries[1..]))
  }

  /** A search path with at least one entry. */
  function PathOf(first: string, entries: seq<string>): string {
    first + Rest(entries)
  }

  predicate NoSemicolon(s: string) {
    ';' !in s
  }

  ghost predicate Entries(entries: seq<string>) {
    forall i :: 0 <= i < |entries| ==> NoSemicolon(entries[i])
  }

  function Without(entries: seq<string>, location: string): seq<string> {
    if entries == [] then []
    else if entries[0] == location then Without(entries[1..], location)
    else [entries[0]] + Without(entries[1..], location)
  }

  /** An entry that only begins with the location, like `C:\Firmware` for `C:\Firm`. */
  predicate LongerEntry(entries: seq<string>, location: string) {
    exists i :: 0 <= i < |entries| && location < entries[i]
  }

  /** What the removal leaves of the entries: it takes the location from the front of longer ones too. */
  function Leftovers(entries: seq<string>, location: string): string {
    if entries == [] then ""
    else if location <= entries[0] then entries[0][|location|..] + Leftovers(entries[1..], location)
    else ";" + (entries[0] + Leftovers(entries[1..], location))
  }

  lemma EndsBefore(location: string, s: string, n: nat)
    requires NoSemicolon(location) && location <= s && n < |s| && s[n] == ';'
    ensures |location| <= n
  {
    forall k | 0 <= k < |location|
      ensures s[k] != ';'
    {
      assert s[k] == location[k];
    }
  }

  lemma PrefixOfEntry(location: string, entry: string, entries: seq<string>)
    requires NoSemicolon(location) && NoSemicolon(entry)
    ensures location <= entry + Rest(entries) <==> location <= entry
    ensures location <= entry ==> (entry + Rest(entries))[|location|..] == entry[|location|..] + Rest(entries)
  {
    var s := entry + Rest(entries);
    if location <= s && entries != [] {
      assert s[|entry|] == ';';
      EndsBefore(location, s, |entry|);
    }
    if location <= entry {
      assert s[..|location|] == entry[..|location|];
    }
    if location <= s && |location| <= |entry| {
      assert entry[..|location|] == s[..|location|];
    }
  }

  lemma NoSemicolonFrom(s: string, i: nat)
    requires NoSemicolon(s) && i <= |s|
    ensures NoSemicolon(s[i..])
  {
    forall c | c in s[i..]
      ensures c in s
    {
    }
  }

  lemma {:induction false} RemoveFromRest(entries: seq<string>, location: string)
    requires Entries(entries) && NoSemicolon(location)
    ensures RemoveAll(Rest(entries), ";" + location) == Leftovers(entries, location)
  {
    if entries != [] {
      var e, more := entries[0], entries[1..];
      assert NoSemicolon(e) && Entries(more);
      RemoveFromRest(more, location);
      PrefixOfEntry(location, e, more);
      var tail := e + Rest(more);
      var s := ";" + tail;
      assert s[1..] == tail;
      SemicolonPrefix(location, tail);
      if location <= e {
        assert s[|";" + location|..] == tail[|location|..];
        NoSemicolonFrom(e, |location|);
        KeepsBefore(e[|location|..], location, Rest(more));
      } else {
        KeepsBefore(e, location, Rest(more));
        assert [s[0]] == ";";
      }
    }
  }

  lemma SemicolonPrefix(location: string, tail: string)
    ensures ";" + location <= ";" + tail <==> location <= tail
  {
    if location <= tail {
      assert (";" + tail)[..|";" + location|] == ";" + tail[..|location|];
    }
    if ";" + location <= ";" + tail {
      assert tail[..|location|] == (";" + tail)[1..|";" + location|];
    }
  }

  lemma {:induction false} LeftoversExactly(entries: seq<string>, location: string)
    ensures |Leftovers(entries, location)| <= |Rest(Without(entries, location))|
    ensures Leftovers(entries, location) == Rest(Without(entries, location)) <==> !LongerEntry(entries, location)
    ensures LongerEntry(entries, location) ==> |Leftovers(entries, location)| < |Rest(Without(entries, location))|
  {
    if entries != [] {
      var more := entries[1..];
      LeftoversExactly(more, location);
      LongerFirst(entries, location);
      if entries[0] != location {
        assert Without(entries, location)[1..] == Without(more, location);
      }
    }
  }

  lemma LongerFirst(entries: seq<string>, location: string)
    requires entries != []
    ensures LongerEntry(entries, location) <==> location < entries[0] || LongerEntry(entries[1..], location)
  {
    var more := entries[1..];
    if i :| 0 <= i < |entries| && location < entries[i] {
      assert i > 0 ==> location < more[i - 1];
    }
    if i :| 0 <= i < |more| && location < more[i] {
      assert location < entries[i + 1];
    }
  }

  lemma {:induction false} WithoutAbsent(entries: seq<string>, location: string)
    requires location !in entries
    ensures Without(entries, location) == entries
  {
    if entries != [] {
      assert entries[0] in entries;
      forall e | e in entries[1..]
        ensures e in entries
      {
      }
      WithoutAbsent(entries[1..], location);
    }
  }

  lemma {:induction false} EntryIsOnPath(first: string, entries: seq<string>, location: string, i: nat)
    requires i < |entries| && entries[i] == location
    ensures IsOnPath(PathOf(first, entries), location)
    decreases i
  {
    var path := PathOf(first, entries);
    var more := entries[1..];
    if i > 0 {
      assert path == PathOf(first + (";" + entries[0]), more);
      EntryIsOnPath(first + (";" + entries[0]), more, location, i - 1);
    } else if more == [] {
      assert Rest(entries) == ";" + location;
      assert path == (first + ";") + location;
    } else {
      var after := more[0] + Rest(more[1..]);
      FirstInMiddle(first, location, after);
      assert Rest(more) == ";" + after;
      assert Strings.OccursAt(path, ";" + location + ";", |first|);
    }
  }

  lemma FirstInMiddle(first: string, location: string, after: string)
    ensures Strings.OccursAt(first + (";" + (location + (";" + after))), ";" + location + ";", |first|)
  {
    assert first + (";" + (location + (";" + after))) == first + ((";" + location + ";") + after);
  }

  /** Removing a location takes exactly the entries equal to it off the path, the first excepted, unless the
      removal happens and another entry begins with the location: then that entry is broken. */
  lemma RemovesEntriesExactly(first: string, entries: seq<string>, location: string)
    requires NoSemicolon(first) && Entries(entries) && NoSemicolon(location)
    ensures Remove(PathOf(first, entries), location) == PathOf(first, Without(entries, location))
            <==> !(IsOnPath(PathOf(first, entries), location) && LongerEntry(entries, location))
  {
    var path := PathOf(first, entries);
    KeepsBefore(first, location, Rest(entries));
    RemoveFromRest(entries, location);
    LeftoversExactly(entries, location);
    if IsOnPath(path, location) {
      SameAfter(first, Leftovers(entries, location), Rest(Without(entries, location)));
    } else {
      forall i | 0 <= i < |entries|
        ensures entries[i] != location
      {
        if entries[i] == location {
          EntryIsOnPath(first, entries, location, i);
        }
      }
      WithoutAbsent(entries, location);
    }
  }

  lemma LongerIsBroken(first: string, firm: string, rest: string)
    requires NoSemicolon(first) && NoSemicolon(firm) && NoSemicolon(firm + rest)
    ensures Remove(PathOf(first, [firm, firm + rest]), firm) == first + rest
  {
    var entries := [firm, firm + rest];
    assert entries[1..] == [firm + rest] && entries[1..][1..] == [];
    EntryIsOnPath(first, entries, firm, 0);
    RemoveFromRest(entries, firm);
    KeepsBefore(first, firm, Rest(entries));
    assert firm[|firm|..] == "" && (firm + rest)[|firm|..] == rest && firm <= firm + rest;
    assert Leftovers(entries[1..][1..], firm) == "";
    assert Leftovers(entries[1..], firm) == rest + "" == rest;
    assert Leftovers(entries, firm) == "" + Leftovers(entries[1..], firm);
  }

  /** Removing `C:\Program Files\Firm` breaks `C:\Program Files\Firmware`. */
  lemma FirmwareIsBroken()
    ensures Remove(PathOf("C:\\Windows", ["C:\\Program Files\\Firm", "C:\\Program Files\\Firm" + "ware"]),
                   "C:\\Program Files\\Firm") == "C:\\Windows" + "ware"
  {
    assert NoSemicolon("C:\\Windows") && NoSemicolon("C:\\Program Files\\Firm");
    assert NoSemicolon("C:\\Program Files\\Firm" + "ware");
    LongerIsBroken("C:\\Windows", "C:\\Program Files\\Firm", "ware");
  }

  // ---------- adding and removing ----------

  lemma {:induction false} RemoveBehind(path: string, location: string)
    requires NoSemicolon(location) && !Strings.Contains(path, ";" + location)
    ensures RemoveAll(path + (";" + location), ";" + location) == path
    decreases |path|
  {
    var t := ";" + location;
    var s := path + t;
    if path == [] {
      assert s == t && s[|t|..] == "";
    } else {
      if t <= s {
        OverlapNeedsSemicolon(path, location);
      }
      assert s[1..] == path[1..] + t && s[0] == path[0];
      forall i | 0 <= i <= |path[1..]|
        ensures !Strings.OccursAt(path[1..], t, i)
      {
        OccursLater(path, t, i);
      }
      RemoveBehind(path[1..], location);
      assert path == [path[0]] + path[1..];
    }
  }

  /** The text could begin earlier only by containing the semicolon itself. */
  lemma OverlapNeedsSemicolon(path: string, location: string)
    requires path != [] && NoSemicolon(location) && ";" + location <= path + (";" + location)
    ensures Strings.Contains(path, ";" + location)
  {
    var t := ";" + location;
    var s := path + t;
    SemicolonPrefix(location, s[1..]);
    assert s == ";" + s[1..];
    assert s[1..][|path| - 1] == ';';
    EndsBefore(location, s[1..], |path| - 1);
    assert path[..|t|] == s[..|t|] == t;
    assert Strings.OccursAt(path, t, 0);
  }

  lemma PartOccurs(s: string, a: string, t: string, i: nat)
    requires Strings.OccursAt(s, a + t, i)
    ensures Strings.Contains(s, t)
  {
    assert s[i + |a|..i + |a| + |t|] == (a + t)[|a|..];
    assert Strings.OccursAt(s, t, i + |a|);
  }

  lemma AddedIsLast(path: string, location: string)
    ensures EndsWith(path + (";" + location), location)
  {
    var s := path + (";" + location);
    assert s == (path + ";") + location;
  }

  /** `i` is where the text first occurs. */
  ghost predicate FirstAt(s: string, t: string, i: nat) {
    Strings.OccursAt(s, t, i) && forall j :: 0 <= j < i ==> !Strings.OccursAt(s, t, j)
  }

  /** The text begins nowhere in `a`. */
  predicate NoStart(a: string, t: string, rest: string) {
    a == [] || (!(t <= a + rest) && NoStart(a[1..], t, rest))
  }

  lemma {:induction false} KeepsUntil(a: string, t: string, rest: string)
    requires t != [] && NoStart(a, t, rest)
    ensures RemoveAll(a + rest, t) == a + RemoveAll(rest, t)
  {
    if a == [] {
      assert a + rest == rest;
    } else {
      assert (a + rest)[0] == a[0] && (a + rest)[1..] == a[1..] + rest;
      KeepsUntil(a[1..], t, rest);
    }
  }

  lemma {:induction false} NoneBefore(a: string, t: string, rest: string)
    requires forall j :: 0 <= j < |a| ==> !Strings.OccursAt(a + rest, t, j)
    ensures NoStart(a, t, rest)
  {
    if a != [] {
      var s := a + rest;
      OccursAtStart(s, t);
      assert !Strings.OccursAt(s, t, 0);
      assert s[1..] == a[1..] + rest;
      forall j | 0 <= j < |a[1..]|
        ensures !Strings.OccursAt(a[1..] + rest, t, j)
      {
        OccursLater(s, t, j);
      }
      NoneBefore(a[1..], t, rest);
    }
  }

  lemma RemovesHead(t: string, rest: string)
    requires t != []
    ensures RemoveAll(t + rest, t) == RemoveAll(rest, t)
  {
    assert (t + rest)[|t|..] == rest && t <= t + rest;
  }

  lemma SplitThree(s: string, t: string, i: nat)
    requires Strings.OccursAt(s, t, i)
    ensures s == s[..i] + (t + s[i + |t|..])
  {
  }

  /** What is before the first occurrence stays. */
  lemma RemovesFirst(s: string, t: string, i: nat)
    requires t != [] && FirstAt(s, t, i)
    ensures RemoveAll(s, t) == s[..i] + RemoveAll(s[i + |t|..], t)
  {
    var a, rest := s[..i], s[i + |t|..];
    SplitThree(s, t, i);
    NoneBefore(a, t, t + rest);
    KeepsUntil(a, t, t + rest);
    RemovesHead(t, rest);
  }

  lemma TooShort(s: string, t: string)
    requires |s| < |t|
    ensures !Strings.Contains(s, t)
  {
  }

  lemma WithinPath(path: string, t: string, i: nat)
    requires Strings.OccursAt(path + t, t, i)
    ensures Strings.OccursAt(path, t, i) <==> i + |t| <= |path|
  {
    if i + |t| <= |path| {
      assert path[i..i + |t|] == (path + t)[i..i + |t|];
    }
  }

  lemma Overlap(path: string, t: string, i: nat)
    requires i <= |path| && Strings.OccursAt(path + t, t, i)
    ensures path[i..] + t == t + (path + t)[i + |t|..]
    ensures (path + t)[..i] == path[..i] && path == path[..i] + path[i..]
  {
    var s := path + t;
    assert s[i..] == path[i..] + t;
    assert s[i..] == s[i..i + |t|] + s[i + |t|..];
  }

  /** What is appended to a text that does not contain it may yet begin earlier; removing it then leaves the
      text exactly if the two commute from there on. */
  lemma RemovesAppended(path: string, t: string, i: nat)
    requires t != [] && !Strings.Contains(path, t) && i <= |path| && FirstAt(path + t, t, i)
    ensures RemoveAll(path + t, t) == path <==> path[i..] + t == t + path[i..]
  {
    var rest := (path + t)[i + |t|..];
    RemovesFirst(path + t, t, i);
    WithinPath(path, t, i);
    assert !Strings.OccursAt(path, t, i);
    TooShort(rest, t);
    NothingRemoved(rest, t);
    Overlap(path, t, i);
    SameAfter(path[..i], rest, path[i..]);
    SameAfter(t, rest, path[i..]);
  }

  lemma FirstShifts(path: string, t: string, i: nat)
    requires path != [] && !(t <= path + t) && FirstAt(path[1..] + t, t, i)
    ensures FirstAt(path + t, t, i + 1)
  {
    var s := path + t;
    assert s[1..] == path[1..] + t;
    OccursAtStart(s, t);
    OccursLater(s, t, i);
    forall j | 0 <= j < i + 1
      ensures !Strings.OccursAt(s, t, j)
    {
      if j > 0 {
        OccursLater(s, t, j - 1);
      }
    }
  }

  /** Where the text first occurs once it has been appended. */
  function FirstStart(path: string, t: string): (i: nat)
    ensures i <= |path| && FirstAt(path + t, t, i)
  {
    OccursAtStart(path + t, t);
    if t <= path + t then 0
    else
      assert path != [] by { assert "" + t == t; }
      var i := FirstStart(path[1..], t);
      FirstShifts(path, t, i);
      i + 1
  }

  /** For every path and location: removing after adding restores the path exactly if, when the location was in
      it already, the removal finds nothing to do, and otherwise, when from the first place where the
      semicolon and location occur after adding, the rest of the path and they commute. */
  lemma RemoveUndoesAdd(path: string, location: string)
    ensures var t := ";" + location;
            var rest := path[FirstStart(path, t)..];
            Remove(Add(path, location), location) == path
            <==> if Strings.Contains(path, location) then !IsOnPath(path, location) || !Strings.Contains(path, t)
                 else rest + t == t + rest
  {
    if Strings.Contains(path, location) {
      RemovesExactly(path, ";" + location);
    } else {
      if j :| 0 <= j <= |path| && Strings.OccursAt(path, ";" + location, j) {
        PartOccurs(path, ";", location, j);
      }
      AddedIsLast(path, location);
      RemovesAppended(path, ";" + location, FirstStart(path, ";" + location));
    }
  }

  /** A location without semicolons occurs first where it was added, so there only its presence matters. */
  lemma RemoveUndoesAddExactly(path: string, location: string)
    requires NoSemicolon(location)
    ensures Remove(Add(path, location), location) == path
            <==> !Strings.Contains(path, location) || !IsOnPath(path, location) || !Strings.Contains(path, ";" + location)
  {
    if Strings.Contains(path, location) {
      RemovesExactly(path, ";" + location);
    } else {
      if i :| 0 <= i <= |path| && Strings.OccursAt(path, ";" + location, i) {
        PartOccurs(path, ";", location, i);
      }
      RemoveBehind(path, location);
      AddedIsLast(path, location);
    }
  }

  lemma MisplacedRemoval()
    ensures RemoveAll("x;ab;ab;a", ";ab;a") == "xb;a"
  {
    var t := ";" + "ab;a";
    assert t == ";ab;a";
    var s := t + "b;a";
    assert s[|t|..] == "b;a";
    KeepsBefore("b", "ab;a", ";a");
    assert "b" + ";a" == "b;a";
    assert !(t <= ";a") && ";a"[1..] == "a";
    KeepsBefore("a", "ab;a", "");
    assert "a" + "" == "a";
    assert RemoveAll(";a", t) == ";a";
    KeepsBefore("x", "ab;a", s);
    assert "x;ab;ab;a" == "x" + s;
  }

  /** With a semicolon in the location it can fail even when the location was not in the path. */
  lemma SemicolonsBreakUndo()
    ensures !Strings.Contains("x;ab", "ab;a")
    ensures Remove(Add("x;ab", "ab;a"), "ab;a") == "xb;a"
  {
    forall i | 0 <= i <= 4
      ensures !Strings.OccursAt("x;ab", "ab;a", i)
    {
      assert i + 4 <= 4 ==> i == 0 && "x;ab"[0..4][0] == 'x' && "ab;a"[0] == 'a';
    }
    AddedIsLast("x;ab", "ab;a");
    MisplacedRemoval();
    assert ";" + "ab;a" == ";ab;a" && "x;ab" + ";ab;a" == "x;ab;ab;a";
  }

  // ---------- pending deletions ----------

  function StripReturn(line: string): string {
    if line != [] && line[|line| - 1] == '\r' then line[..|line| - 1] else line
  }

  /** `lines()` without the empty ones. */
  function LinesOf(text: string, line: string): seq<string> {
    if text == [] then Kept(line)
    else if text[0] == '\n' then Kept(line) + LinesOf(text[1..], "")
    else LinesOf(text[1..], line + [text[0]])
  }

  function Kept(line: string): seq<string> {
    if StripReturn(line) == [] then [] else [StripReturn(line)]
  }

  function GetPending(value: Option<string>): seq<string> {
    match value case None => [] case Some(text) => LinesOf(text, "")
  }

  function Joined(entries: seq<string>): string {
    if entries == [] then "" else (entries[0] + "\n\n") + Joined(entries[1..])
  }

  /** `set_pending_deletions`, as the fold it is. */
  function SetPending(acc: string, entries: seq<string>): string
    decreases |entries|
  {
    if entries == [] then acc else SetPending(acc + entries[0] + "\n\n", entries[1..])
  }

  lemma {:induction false} SetJoins(acc: string, entries: seq<string>)
    ensures SetPending(acc, entries) == acc + Joined(entries)
    decreases |entries|
  {
    if entries != [] {
      SetJoins(acc + entries[0] + "\n\n", entries[1..]);
      assert (acc + entries[0] + "\n\n") + Joined(entries[1..]) == acc + ((entries[0] + "\n\n") + Joined(entries[1..]));
    } else {
      assert acc + "" == acc;
    }
  }

  /** An entry the list can hold. */
  predicate Storable(entry: string) {
    entry != [] && '\n' !in entry && entry[|entry| - 1] != '\r'
  }

  lemma {:induction false} LineRead(entry: string, rest: string, line: string)
    requires '\n' !in entry
    ensures LinesOf(entry + ("\n\n" + rest), line) == Kept(line + entry) + LinesOf(rest, "")
    decreases |entry|
  {
    var text := entry + ("\n\n" + rest);
    if entry == [] {
      assert text == "\n\n" + rest && line + entry == line;
      assert text[1..] == "\n" + rest && (text[1..])[1..] == rest;
      assert LinesOf("\n" + rest, "") == Kept("") + LinesOf(rest, "");
      assert Kept("") + LinesOf(rest, "") == LinesOf(rest, "");
    } else {
      assert entry[0] in entry;
      forall c | c in entry[1..]
        ensures c in entry
      {
      }
      assert text[0] == entry[0] && text[1..] == entry[1..] + ("\n\n" + rest);
      LineRead(entry[1..], rest, line + [entry[0]]);
      assert (line + [entry[0]]) + entry[1..] == line + entry;
    }
  }

  ghost predicate AllStorable(entries: seq<string>) {
    forall i :: 0 <= i < |entries| ==> Storable(entries[i])
  }

  ghost predicate OneLineEach(entries: seq<string>) {
    forall i :: 0 <= i < |entries| ==> '\n' !in entries[i]
  }

  function Read(entries: seq<string>): seq<string> {
    if entries == [] then [] else Kept(entries[0]) + Read(entries[1..])
  }

  lemma {:induction false} ReadsLines(entries: seq<string>)
    requires OneLineEach(entries)
    ensures LinesOf(Joined(entries), "") == Read(entries)
  {
    if entries != [] {
      ReadsLines(entries[1..]);
      LineRead(entries[0], Joined(entries[1..]), "");
      assert "" + entries[0] == entries[0];
      assert (entries[0] + "\n\n") + Joined(entries[1..]) == entries[0] + ("\n\n" + Joined(entries[1..]));
    }
  }

  function Total(entries: seq<string>): nat {
    if entries == [] then 0 else |entries[0]| + Total(entries[1..])
  }

  lemma {:induction false} TotalConcat(s: seq<string>, t: seq<string>)
    ensures Total(s + t) == Total(s) + Total(t)
  {
    if s == [] {
      assert s + t == t;
    } else {
      assert (s + t)[1..] == s[1..] + t;
      TotalConcat(s[1..], t);
    }
  }

  lemma KeptTotal(entry: string)
    ensures Total(Kept(entry)) <= |entry|
    ensures entry != [] ==> (Total(Kept(entry)) == |entry| <==> entry[|entry| - 1] != '\r')
  {
    assert forall s: string :: Total([s]) == |s| + Total([s][1..]);
  }

  ghost predicate NoneEmpty(entries: seq<string>) {
    forall i :: 0 <= i < |entries| ==> entries[i] != []
  }

  /** Reading never makes the entries longer, and shortens them if one ends in a return. */
  lemma {:induction false} ReadTotal(entries: seq<string>)
    requires NoneEmpty(entries)
    ensures Total(Read(entries)) <= Total(entries)
    ensures Total(Read(entries)) == Total(entries) ==> forall i :: 0 <= i < |entries| ==> entries[i][|entries[i]| - 1] != '\r'
  {
    if entries != [] {
      var more := entries[1..];
      ReadTotal(more);
      KeptTotal(entries[0]);
      TotalConcat(Kept(entries[0]), Read(more));
      assert Total(Read(entries)) == Total(Kept(entries[0])) + Total(Read(more)) && Total(entries) == |entries[0]| + Total(more);
      forall i | 0 <= i < |entries| && Total(Read(entries)) == Total(entries)
        ensures entries[i][|entries[i]| - 1] != '\r'
      {
        assert i > 0 ==> entries[i] == more[i - 1];
      }
    }
  }

  lemma {:induction false} StorableRead(entries: seq<string>)
    requires AllStorable(entries)
    ensures Read(entries) == entries
  {
    if entries != [] {
      StorableRead(entries[1..]);
      assert Storable(entries[0]);
      assert entries == [entries[0]] + entries[1..];
    }
  }

  /** What is read is never empty and has no newline. */
  lemma {:induction false} LinesAreClean(text: string, line: string)
    requires '\n' !in line
    ensures NoneEmpty(LinesOf(text, line)) && OneLineEach(LinesOf(text, line))
    decreases |text|
  {
    if text != [] && text[0] == '\n' {
      LinesAreClean(text[1..], "");
    } else if text != [] {
      LinesAreClean(text[1..], line + [text[0]]);
    }
  }

  /** A list of entries is read back as it was stored exactly if no entry is empty, has a newline or ends
      in a carriage return. */
  lemma PendingRoundTripExactly(entries: seq<string>)
    ensures GetPending(Some(SetPending("", entries))) == entries <==> AllStorable(entries)
  {
    SetJoins("", entries);
    assert "" + Joined(entries) == Joined(entries);
    LinesAreClean(Joined(entries), "");
    if OneLineEach(entries) {
      ReadsLines(entries);
      if AllStorable(entries) {
        StorableRead(entries);
      }
      if NoneEmpty(entries) {
        ReadTotal(entries);
      }
    }
  }

  /** Lines, each ended by a newline. */
  function Lined(lines: seq<string>): string {
    if lines == [] then "" else (lines[0] + "\n") + Lined(lines[1..])
  }

  lemma {:induction false} LineEnds(line: string, rest: string, begun: string)
    requires '\n' !in line
    ensures LinesOf(line + ("\n" + rest), begun) == Kept(begun + line) + LinesOf(rest, "")
    decreases |line|
  {
    var text := line + ("\n" + rest);
    if line == [] {
      assert text == "\n" + rest && begun + line == begun && text[1..] == rest;
    } else {
      assert line[0] in line;
      forall c | c in line[1..]
        ensures c in line
      {
      }
      assert text[0] == line[0] && text[1..] == line[1..] + ("\n" + rest);
      LineEnds(line[1..], rest, begun + [line[0]]);
      assert (begun + [line[0]]) + line[1..] == begun + line;
    }
  }

  lemma {:induction false} LastLine(line: string, begun: string)
    requires '\n' !in line
    ensures LinesOf(line, begun) == Kept(begun + line)
    decreases |line|
  {
    if line == [] {
      assert begun + line == begun;
    } else {
      assert line[0] in line;
      forall c | c in line[1..]
        ensures c in line
      {
      }
      LastLine(line[1..], begun + [line[0]]);
      assert (begun + [line[0]]) + line[1..] == begun + line;
    }
  }

  /** Whatever is in the registry, its lines are read in order: each without one carriage return at its end, and
      those that are then empty left out. */
  lemma {:induction false} AnyLinesRead(lines: seq<string>, last: string)
    requires OneLineEach(lines) && '\n' !in last
    ensures GetPending(Some(Lined(lines) + last)) == Read(lines + [last])
  {
    var text := Lined(lines) + last;
    if lines == [] {
      assert text == last;
      LastLine(last, "");
      assert "" + last == last && [] + [last] == [last];
      assert Read([last]) == Kept(last) + Read([last][1..]);
      assert Read([last]) == Kept(last);
    } else {
      AnyLinesRead(lines[1..], last);
      var rest := Lined(lines[1..]) + last;
      assert text == lines[0] + ("\n" + rest);
      LineEnds(lines[0], rest, "");
      assert "" + lines[0] == lines[0];
      assert (lines + [last])[1..] == lines[1..] + [last];
    }
  }

  lemma KeptExactly(line: string)
    ensures line == "" || line == "\r" ==> Kept(line) == []
    ensures line != "" && line != "\r" && line[|line| - 1] == '\r' ==> Kept(line) == [line[..|line| - 1]]
    ensures line != "" && line[|line| - 1] != '\r' ==> Kept(line) == [line]
  {
  }

  const MARK := "\\??\\"

  function Marked(paths: seq<string>): seq<string> {
    if paths == [] then [] else [MARK + paths[0]] + Marked(paths[1..])
  }

  /** A path that can be marked. */
  predicate MarkStorable(path: string) {
    '\n' !in path && (path != [] ==> path[|path| - 1] != '\r')
  }

  lemma StorableMark(path: string)
    ensures Storable(MARK + path) <==> MarkStorable(path)
  {
    var marked := MARK + path;
    assert path != [] ==> marked[|marked| - 1] == path[|path| - 1];
    assert '\n' !in MARK;
    assert '\n' in marked <==> '\n' in MARK || '\n' in path;
  }

  lemma {:induction false} MarkedAre(paths: seq<string>)
    ensures |Marked(paths)| == |paths|
    ensures forall i :: 0 <= i < |paths| ==> Marked(paths)[i] == MARK + paths[i]
  {
    if paths != [] {
      MarkedAre(paths[1..]);
    }
  }

  lemma MarkedStorable(paths: seq<string>)
    ensures AllStorable(Marked(paths)) <==> forall i :: 0 <= i < |paths| ==> MarkStorable(paths[i])
  {
    MarkedAre(paths);
    forall i | 0 <= i < |paths|
      ensures Storable(Marked(paths)[i]) <==> MarkStorable(paths[i])
    {
      StorableMark(paths[i]);
    }
    if AllStorable(Marked(paths)) {
      forall i | 0 <= i < |paths|
        ensures MarkStorable(paths[i])
      {
        assert Storable(Marked(paths)[i]);
      }
    }
  }

  /** Marking appends exactly the marked paths to what was pending, provided that can be stored. */
  lemma MarkingAppendsExactly(value: Option<string>, paths: seq<string>)
    ensures GetPending(Some(SetPending("", GetPending(value) + Marked(paths)))) == GetPending(value) + Marked(paths)
            <==> AllStorable(GetPending(value)) && forall i :: 0 <= i < |paths| ==> MarkStorable(paths[i])
  {
    var before, marks := GetPending(value), Marked(paths);
    PendingRoundTripExactly(before + marks);
    MarkedStorable(paths);
    StorableConcat(before, marks);
  }

  lemma StorableConcat(s: seq<string>, t: seq<string>)
    ensures AllStorable(s + t) <==> AllStorable(s) && AllStorable(t)
  {
    if AllStorable(s + t) {
      assert forall i :: 0 <= i < |s| ==> s[i] == (s + t)[i];
      assert forall i :: 0 <= i < |t| ==> t[i] == (s + t)[|s| + i];
    }
  }

  // ---------- cancelling ----------

  /** The directory begins the entry, where a dot stands for any character. */
  predicate BeginsWithDots(directory: string, entry: string) {
    |directory| <= |entry|
    && forall i :: 0 <= i < |directory| ==> entry[i] == directory[i] || (directory[i] == '.' && entry[i] != '\n')
  }

  /** A path without characters that mean something in a regular expression, the dot excepted. */
  predicate Literal(path: string) {
    forall i :: 0 <= i < |path| ==> path[i] !in "+*?()|[]{}^$'\""
  }

  /** The regular expression for the marked paths below a directory, if it compiles. Backslashes are escaped
      before, dots are not. */
  type Matcher = string -> Option<string -> bool>

  ghost predicate Compiles(matcher: Matcher) {
    forall directory :: Literal(directory) ==>
      matcher(directory).Some? && forall entry :: '\n' !in entry ==>
        (matcher(directory).value(entry) <==> BeginsWithDots(MARK + directory, entry))
  }

  function Dropped(entries: seq<string>, drop: string -> bool): seq<string> {
    if entries == [] then []
    else (if drop(entries[0]) then [] else [entries[0]]) + Dropped(entries[1..], drop)
  }

  lemma {:induction false} DroppedAgree(entries: seq<string>, p: string -> bool, q: string -> bool)
    requires forall i :: 0 <= i < |entries| && q(entries[i]) ==> p(entries[i])
    ensures Dropped(entries, p) == Dropped(entries, q) <==> forall i :: 0 <= i < |entries| ==> p(entries[i]) == q(entries[i])
    ensures |Dropped(entries, p)| <= |Dropped(entries, q)|
    ensures (exists i :: 0 <= i < |entries| && p(entries[i]) && !q(entries[i])) ==> |Dropped(entries, p)| < |Dropped(entries, q)|
  {
    if entries != [] {
      var more := entries[1..];
      assert forall i :: 0 <= i < |more| ==> more[i] == entries[i + 1];
      DroppedAgree(more, p, q);
      if forall i :: 0 <= i < |entries| ==> p(entries[i]) == q(entries[i]) {
      } else {
        var i :| 0 <= i < |entries| && p(entries[i]) != q(entries[i]);
        assert i > 0 ==> more[i - 1] == entries[i];
      }
    }
  }

  /** Dropping looks at one entry after the other and keeps the rest in order. */
  lemma {:induction false} DroppedSplits(s: seq<string>, t: seq<string>, drop: string -> bool)
    ensures Dropped(s + t, drop) == Dropped(s, drop) + Dropped(t, drop)
  {
    if s == [] {
      assert s + t == t;
    } else {
      DroppedSplits(s[1..], t, drop);
      assert (s + t)[1..] == s[1..] + t && (s + t)[0] == s[0];
      ConcatAssociative(if drop(s[0]) then [] else [s[0]], Dropped(s[1..], drop), Dropped(t, drop));
    }
  }

  lemma DroppedOne(entry: string, drop: string -> bool)
    ensures Dropped([entry], drop) == if drop(entry) then [] else [entry]
  {
    assert [entry][1..] == [];
  }

  /** The marked directory begins the entry. */
  predicate BeginsWith(directory: string, entry: string) {
    MARK + directory <= entry
  }

  /** The entry is the marked directory or lies in it. */
  predicate Below(directory: string, entry: string) {
    && BeginsWith(directory, entry)
    && (MARK + directory == entry || EndsInSeparator(directory) || entry[|MARK + directory|] == '\\')
  }

  predicate EndsInSeparator(directory: string) {
    directory != [] && directory[|directory| - 1] == '\\'
  }

  lemma BeginningMatches(directory: string, entry: string)
    ensures BeginsWith(directory, entry) ==> BeginsWithDots(MARK + directory, entry)
    ensures '.' !in directory ==> (BeginsWithDots(MARK + directory, entry) <==> BeginsWith(directory, entry))
  {
    var d := MARK + directory;
    if BeginsWith(directory, entry) {
      assert forall i :: 0 <= i < |d| ==> d[i] == entry[i];
    }
    if '.' !in directory && BeginsWithDots(d, entry) {
      forall i | 0 <= i < |d|
        ensures d[i] == entry[i]
      {
        assert i >= |MARK| ==> d[i] == directory[i - |MARK|];
      }
      assert entry[..|d|] == d;
    }
  }

  /** An entry is confused when a dot in the directory meets another character. */
  ghost predicate Confused(directory: string, entries: seq<string>) {
    exists i :: 0 <= i < |entries| && BeginsWithDots(MARK + directory, entries[i]) && !BeginsWith(directory, entries[i])
  }

  /** An entry goes on with the directory's last name, as `C:\Firmware` does with that of `C:\Firm`. */
  ghost predicate Continued(directory: string, entries: seq<string>) {
    exists i :: 0 <= i < |entries| && BeginsWith(directory, entries[i]) && !Below(directory, entries[i])
  }

  /** Cancelling drops exactly the entries below the directory and keeps the order of the others, exactly
      if no entry is taken for one because of a dot or because it continues the directory's name. */
  lemma CancelsExactly(directory: string, entries: seq<string>)
    ensures Dropped(entries, e => BeginsWithDots(MARK + directory, e)) == Dropped(entries, e => Below(directory, e))
            <==> !Confused(directory, entries) && !Continued(directory, entries)
    ensures '.' !in directory ==> !Confused(directory, entries)
    ensures EndsInSeparator(directory) ==> !Continued(directory, entries)
  {
    forall e
      ensures BeginsWith(directory, e) ==> BeginsWithDots(MARK + directory, e)
      ensures '.' !in directory ==> (BeginsWithDots(MARK + directory, e) <==> BeginsWith(directory, e))
    {
      BeginningMatches(directory, e);
    }
    DroppedAgree(entries, e => BeginsWithDots(MARK + directory, e), e => Below(directory, e));
  }

  /** Every directory without a separator at its end has entries that continue its name. */
  lemma NamesContinue(directory: string, c: char, rest: string)
    requires !EndsInSeparator(directory) && c != '\\'
    ensures Continued(directory, [MARK + (directory + ([c] + rest))])
  {
    var entry := MARK + (directory + ([c] + rest));
    assert entry == (MARK + directory) + ([c] + rest);
    assert entry[|MARK + directory|] == c;
    assert [entry][0] == entry;
  }

  /** Cancelling for `C:\Firm` drops what is pending in `C:\Firmware`, which is not below it. */
  lemma FirmwareIsCancelled()
    ensures var pending := [MARK + ("C:\\Firm" + "ware\\a")];
            && Dropped(pending, e => BeginsWithDots(MARK + "C:\\Firm", e)) == []
            && Dropped(pending, e => Below("C:\\Firm", e)) == pending
  {
    var entry := MARK + ("C:\\Firm" + "ware\\a");
    assert "ware\\a" == ['w'] + "are\\a";
    NamesContinue("C:\\Firm", 'w', "are\\a");
    BeginningMatches("C:\\Firm", entry);
    assert [entry][1..] == [];
  }

  /** A directory with a dot confuses some entry. */
  lemma DotsConfuse(before: string, after: string)
    ensures Confused(before + "." + after, [MARK + (before + "x" + after)])
  {
    var directory := before + "." + after;
    var entry := MARK + (before + "x" + after);
    var d := MARK + directory;
    assert |d| == |entry| && d[|MARK| + |before|] == '.' && entry[|MARK| + |before|] == 'x';
    assert [entry][0] == entry;
  }

  lemma {:induction false} DroppedStorable(entries: seq<string>, drop: string -> bool)
    requires AllStorable(entries)
    ensures AllStorable(Dropped(entries, drop))
  {
    if entries != [] {
      assert Storable(entries[0]);
      DroppedStorable(entries[1..], drop);
      StorableConcat(if drop(entries[0]) then [] else [entries[0]], Dropped(entries[1..], drop));
    }
  }

  // ---------- the editor ----------

  datatype RegistryError = NoPath | BadPattern | NotCommitted

  class RegistryEditor {
    /** The values `Path` and `PendingFileRenameOperations`, if they exist. */
    var path: Option<string>
    var pending: Option<string>
    const matcher: Matcher

    constructor (path: Option<string>, pending: Option<string>, matcher: Matcher)
      ensures this.path == path && this.pending == pending && this.matcher == matcher
    {
      this.path, this.pending, this.matcher := path, pending, matcher;
    }

    /** `commits` tells whether the transaction can be committed. */
    method AddToPath(location: string, commits: bool) returns (r: Result<(), RegistryError>)
      modifies this`path
      ensures r == if old(path).None? then Err(NoPath) else if !commits then Err(NotCommitted) else Ok(())
      ensures path == if r.Ok? then Some(Add(old(path).value, location)) else old(path)
      ensures r.Ok? ==> path == if Strings.Contains(old(path).value, location) then old(path) else Some(old(path).value + ";" + location)
      ensures r.Ok? ==> Strings.Contains(path.value, location)
    {
      if path.None? {
        return Err(NoPath);
      }
      if !commits {
        return Err(NotCommitted);
      }
      if !Strings.Contains(path.value, location) {
        AddedOccurs(path.value, location);
        assert path.value + (";" + location) == path.value + ";" + location;
        path := Some(path.value + (";" + location));
      }
      r := Ok(());
    }

    method RemoveFromPath(location: string, commits: bool) returns (r: Result<(), RegistryError>)
      modifies this`path
      ensures r == if old(path).None? then Err(NoPath) else if !commits then Err(NotCommitted) else Ok(())
      ensures path == if r.Ok? then Some(Remove(old(path).value, location)) else old(path)
      ensures r.Ok? ==> path == if Listed(old(path).value, location) then Some(RemoveAll(old(path).value, ";" + location)) else old(path)
    {
      if path.Some? {
        OnPathExactly(path.value, location);
      }
      if path.None? {
        return Err(NoPath);
      }
      if !commits {
        return Err(NotCommitted);
      }
      if IsOnPath(path.value, location) {
        path := Some(RemoveAll(path.value, ";" + location));
      }
      r := Ok(());
    }

    method MarkPathsForDelete(paths: seq<string>, commits: bool) returns (r: Result<(), RegistryError>)
      modifies this`pending
      ensures r == if commits then Ok(()) else Err(NotCommitted)
      ensures r.Err? ==> pending == old(pending)
      ensures r.Ok? && AllStorable(GetPending(old(pending))) && (forall i :: 0 <= i < |paths| ==> MarkStorable(paths[i])) ==>
                GetPending(pending) == GetPending(old(pending)) + Marked(paths)
      ensures |Marked(paths)| == |paths| && forall i :: 0 <= i < |paths| ==> Marked(paths)[i] == "\\??\\" + paths[i]
    {
      MarkedAre(paths);
      if !commits {
        return Err(NotCommitted);
      }
      MarkingAppendsExactly(pending, paths);
      pending := Some(SetPending("", GetPending(pending) + Marked(paths)));
      r := Ok(());
    }

    method CancelPendingDeletions(directory: string, commits: bool) returns (r: Result<(), RegistryError>)
      modifies this`pending
      ensures r == if matcher(directory).None? then Err(BadPattern) else if commits then Ok(()) else Err(NotCommitted)
      ensures r.Err? ==> pending == old(pending)
      ensures r.Ok? && AllStorable(GetPending(old(pending))) ==>
                GetPending(pending) == Dropped(GetPending(old(pending)), matcher(directory).value)
      ensures Compiles(matcher) && Literal(directory) && commits && AllStorable(GetPending(old(pending))) ==>
                r.Ok? && (GetPending(pending) == Dropped(GetPending(old(pending)), e => Below(directory, e))
                          <==> !Confused(directory, GetPending(old(pending))) && !Continued(directory, GetPending(old(pending))))
    {
      if matcher(directory).None? {
        return Err(BadPattern);
      }
      if !commits {
        return Err(NotCommitted);
      }
      ghost var before := GetPending(pending);
      var left := Dropped(GetPending(pending), matcher(directory).value);
      if AllStorable(before) {
        DroppedStorable(before, matcher(directory).value);
        PendingRoundTripExactly(left);
        if Compiles(matcher) && Literal(directory) {
          MatcherDrops(matcher, directory, before);
          CancelsExactly(directory, before);
        }
      }
      pending := Some(SetPending("", left));
      r := Ok(());
    }
  }

  lemma AddedOccurs(path: string, location: string)
    ensures Strings.Contains(path + (";" + location), location)
  {
    var s := path + (";" + location);
    assert s == (path + ";") + location;
    assert Strings.OccursAt(s, location, |path| + 1);
  }

  lemma {:induction false} SameDropped(entries: seq<string>, p: string -> bool, q: string -> bool)
    requires forall i :: 0 <= i < |entries| ==> p(entries[i]) == q(entries[i])
    ensures Dropped(entries, p) == Dropped(entries, q)
  {
    if entries != [] {
      SameDropped(entries[1..], p, q);
    }
  }

  lemma MatcherDrops(matcher: Matcher, directory: string, entries: seq<string>)
    requires Compiles(matcher) && Literal(directory) && AllStorable(entries)
    ensures Dropped(entries, matcher(directory).value) == Dropped(entries, e => BeginsWithDots(MARK + directory, e))
  {
    forall i | 0 <= i < |entries|
      ensures matcher(directory).value(entries[i]) == BeginsWithDots(MARK + directory, entries[i])
    {
      assert Storable(entries[i]);
    }
    SameDropped(entries, matcher(directory).value, e => BeginsWithDots(MARK + directory, e));
  }
}
