/** The client's printing of a function's output: whole lines as soon as they are complete. */
module Printer {
  import opened Results
  import opened Sequences

  function LastNewline(s: string): (r: Option<nat>)
    ensures r.Some? ==> r.value < |s| && s[r.value] == '\n' && '\n' !in s[r.value + 1..]
    ensures r.None? ==> '\n' !in s
  {
    if s == [] then None
    else if s[|s| - 1] == '\n' then Some(|s| - 1)
    else LastNewline(s[..|s| - 1])
  }

  lemma SplitsAt(s: string, i: nat)
    requires i < |s| && s[i] == '\n'
    ensures s == (s[..i] + "\n") + s[i + 1..]
  {
  }

  class BufferedChannelPrinter {
    var buffer: string
    /** What has been printed, without the channel tags. */
    var printed: string
    ghost var pushed: string

    ghost predicate Valid()
      reads this
    {
      && printed + buffer == pushed && '\n' !in buffer
      && (printed == "" || printed[|printed| - 1] == '\n')
    }

    constructor ()
      ensures Valid() && pushed == "" && printed == ""
    {
      buffer, printed, pushed := "", "", "";
    }

    /** Prints everything up to the last newline and keeps the rest: nothing is lost or printed twice. */
    method Push(content: string)
      requires Valid()
      modifies this
      ensures Valid() && pushed == old(pushed) + content
    {
      var all := buffer + content;
      pushed := pushed + content;
      ConcatAssociative(printed, buffer, content);
      var split := LastNewline(all);
      match split
      case None =>
        buffer := all;
      case Some(i) =>
        var lines := all[..i] + "\n";
        SplitsAt(all, i);
        ConcatAssociative(printed, lines, all[i + 1..]);
        printed := printed + lines;
        buffer := all[i + 1..];
    }

    /** At the end the rest is printed as a line of its own. */
    method Finish()
      requires Valid()
      modifies this
      ensures printed == pushed + (if old(buffer) != "" then "\n" else "")
      ensures pushed == old(pushed) && buffer == ""
    {
      if buffer != "" {
        printed := printed + buffer + "\n";
        buffer := "";
      }
    }
  }
}
