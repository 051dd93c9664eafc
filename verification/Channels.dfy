/** Channels and sets of channels as the objects a function works with: handles that share a log and
each keep a position of their own.
*/
module Channels {
  import opened ChannelData
  import opened Listing
  import opened Results
  import opened Validation

  datatype ChannelType = StringType | IntType | FloatType | BoolType | BytesType

  /** The type number of a spec, if it names a type. */
  type Spec = Option<ChannelType>

  predicate KindMatches(kind: Kind, spec: Spec) {
    match spec
    case Some(StringType) => kind == StringKind
    case Some(IntType) => kind == IntKind
    case Some(FloatType) => kind == FloatKind
    case Some(BoolType) => kind == BoolKind
    case Some(BytesType) => kind == BytesKind
    case None => kind == NullKind
  }

  /** Each type takes the data of its own kind, and a spec without a type takes a channel without data. */
  lemma KindMatchesExactly(d: TypedData, spec: Spec)
    ensures KindMatches(KindOf(d), spec)
            <==> || (d.Strings? && spec == Some(StringType)) || (d.Integers? && spec == Some(IntType))
                 || (d.Floats? && spec == Some(FloatType)) || (d.Booleans? && spec == Some(BoolType))
                 || (d.Bytes? && spec == Some(BytesType)) || (d.Null? && spec == None)
  {
  }

  function EmptyData(spec: Spec): (d: TypedData)
    ensures KindMatches(KindOf(d), spec) && Len(d) == 0
  {
    match spec
    case Some(StringType) => Strings([])
    case Some(IntType) => Integers([])
    case Some(FloatType) => Floats([])
    case Some(BoolType) => Booleans([])
    case Some(BytesType) => Bytes([])
    case None => Null
  }

  datatype AppendError = MismatchedTypes(existing: Kind, value: Kind) | ChannelClosed

  class Log {
    var data: TypedData
    var closed: bool

    constructor (data: TypedData)
      ensures this.data == data && !closed
    {
      this.data := data;
      closed := false;
    }
  }

  class Channel {
    const log: Log
    var pos: nat
    var seekPos: Option<SeekFrom>

    ghost predicate Valid()
      reads this, log
    {
      && pos <= Len(log.data) < HALF
      && (seekPos.Some? ==> SeekFits(seekPos.value))
    }

    constructor (data: TypedData)
      requires Len(data) < HALF
      ensures Valid() && fresh(log) && log.data == data && !log.closed && pos == 0 && seekPos == None
    {
      log := new Log(data);
      pos := 0;
      seekPos := None;
    }

    constructor Sharing(other: Channel)
      requires other.Valid()
      ensures Valid() && log == other.log && pos == other.pos && seekPos == other.seekPos
    {
      log := other.log;
      pos := other.pos;
      seekPos := other.seekPos;
    }

    method Close()
      requires Valid()
      modifies log`closed
      ensures Valid() && log.closed
    {
      log.closed := true;
    }

    method Append(value: TypedData) returns (r: Result<(), AppendError>)
      requires Valid() && Len(log.data) + Len(value) < HALF
      modifies log`data
      ensures Valid()
      ensures if log.closed then r == Err(ChannelClosed) && log.data == old(log.data)
              else if KindOf(value) == old(KindOf(log.data)) then
                r == Ok(()) && log.data == Extend(old(log.data), value) && Appended(old(log.data), value, log.data)
              else r == Err(MismatchedTypes(KindOf(log.data), KindOf(value))) && log.data == old(log.data)
      ensures GrownTo(old(log.data), log.data)
    {
      GrownToItself(log.data);
      if log.closed {
        return Err(ChannelClosed);
      }
      if KindOf(log.data) != KindOf(value) {
        return Err(MismatchedTypes(KindOf(log.data), KindOf(value)));
      }
      ExtendGrows(log.data, value);
      ExtendAppends(log.data, value, Extend(log.data, value));
      log.data := Extend(log.data, value);
      r := Ok(());
    }

    /** One poll of a read. `others` are the positions other polls of this handle leave in the cursor
        before each try; `lo` is where the window this poll reserved begins. */
    method PollRead(size: nat, others: seq<nat>) returns (r: Option<(nat, Option<nat>)>, lo: nat)
      requires Valid() && size < WORD
      requires forall i :: 0 <= i < |others| ==> others[i] <= Len(log.data)
      modifies this`pos
      ensures Valid()
      ensures lo == old(pos) || lo in others
      ensures pos == NextPos(lo, size, Len(log.data))
      ensures r == Answer(lo, pos, size, log.closed)
    {
      var len := Len(log.data);
      lo := pos;
      var next := NextPos(lo, size, len);
      var i := 0;
      while true
        invariant 0 <= i <= |others| && pos == lo <= len
        invariant lo == old(pos) || lo in others
        invariant next == NextPos(lo, size, len)
        decreases |others| - i
      {
        if i < |others| {
          pos := others[i];
        }
        if pos == lo {
          pos := next;
          break;
        }
        lo := pos;
        next := NextPos(lo, size, len);
        i := i + 1;
      }
      if (next - lo) % WORD >= size {
        r := Some((lo, Some((lo + size) % WORD)));
      } else if log.closed {
        r := Some((lo, None));
      } else {
        r := None;
      }
    }

    method StartSeek(seek: SeekFrom) returns (accepted: bool)
      requires Valid() && SeekFits(seek)
      modifies this`seekPos
      ensures Valid()
      ensures accepted == old(seekPos).None?
      ensures seekPos == if accepted then Some(seek) else old(seekPos)
    {
      accepted := seekPos.None?;
      if accepted {
        seekPos := Some(seek);
      }
    }

    /** The answer is the position before the seek. If the log is being written to, the answer is
        pending and the seek is forgotten. */
    method PollComplete(writing: bool) returns (r: Option<nat>)
      requires Valid()
      modifies this`pos, this`seekPos
      ensures Valid() && seekPos == None
      ensures r == if writing && old(seekPos).Some? then None else Some(old(pos))
      ensures pos == if old(seekPos).Some? && !writing then SeekTarget(old(seekPos).value, old(pos), Len(log.data)) else old(pos)
    {
      var seek := seekPos;
      seekPos := None;
      if seek.None? {
        return Some(pos);
      }
      if writing {
        return None;
      }
      r := Some(pos);
      pos := SeekTarget(seek.value, pos, Len(log.data));
    }
  }

  // ---------- sets of channels ----------

  ghost function Footprint(channels: map<string, Channel>): set<object> {
    set n | n in channels :: channels[n] as object
  }

  ghost function Contents(channels: map<string, Channel>): set<object> {
    set n | n in channels :: channels[n].log as object
  }

  /** Which log each name stands for: sets are compared by this. */
  function LogsOf(channels: map<string, Channel>): map<string, Log> {
    map n | n in channels :: channels[n].log
  }

  function KindsOf(logs: map<string, Log>): map<string, Kind>
    reads set n | n in logs :: logs[n]
  {
    map n | n in logs :: KindOf(logs[n].data)
  }

  ghost predicate AllValid(channels: map<string, Channel>)
    reads Footprint(channels), Contents(channels)
  {
    forall n :: n in channels ==> channels[n].Valid()
  }

  /** `clones` are new handles on the same logs, at the same positions. */
  ghost predicate ClonesOf(clones: map<string, Channel>, channels: map<string, Channel>, names: set<string>)
    reads Footprint(channels), Footprint(clones)
  {
    && clones.Keys == names <= channels.Keys
    && forall n :: n in names ==>
         clones[n].log == channels[n].log && clones[n].pos == channels[n].pos && clones[n].seekPos == channels[n].seekPos
  }

  /** Every name has a handle of its own, made since. */
  twostate predicate NewHandles(new channels: map<string, Channel>) {
    && (forall n :: n in channels ==> fresh(channels[n]))
    && (forall m, n :: m in channels && n in channels && m != n ==> channels[m] != channels[n])
  }

  /** And a log of its own, made since. */
  twostate predicate NewLogs(new channels: map<string, Channel>) {
    && (forall n :: n in channels ==> fresh(channels[n].log))
    && (forall m, n :: m in channels && n in channels && m != n ==> channels[m].log != channels[n].log)
  }

  ghost predicate MadeFrom(c: Channel, spec: Spec)
    reads c, c.log
  {
    && c.pos == 0 && c.seekPos == None
    && !c.log.closed && Len(c.log.data) == 0 && KindMatches(KindOf(c.log.data), spec)
  }

  method CloneAll(channels: map<string, Channel>) returns (clones: map<string, Channel>)
    requires AllValid(channels)
    ensures ClonesOf(clones, channels, channels.Keys) && AllValid(clones)
    ensures NewHandles(clones)
  {
    clones := map[];
    var rest := channels.Keys;
    while rest != {}
      invariant rest <= channels.Keys && AllValid(channels)
      invariant ClonesOf(clones, channels, channels.Keys - rest) && AllValid(clones)
      invariant NewHandles(clones)
      decreases rest
    {
      var n :| n in rest;
      var c := new Channel.Sharing(channels[n]);
      clones := clones[n := c];
      rest := rest - {n};
    }
  }

  method MakeAll(specs: map<string, Spec>) returns (channels: map<string, Channel>)
    ensures AllValid(channels) && NewHandles(channels) && NewLogs(channels)
    ensures channels.Keys == specs.Keys
    ensures forall n :: n in channels ==> MadeFrom(channels[n], specs[n])
  {
    channels := map[];
    var rest := specs.Keys;
    while rest != {}
      invariant rest <= specs.Keys && channels.Keys == specs.Keys - rest
      invariant AllValid(channels) && NewHandles(channels) && NewLogs(channels)
      invariant forall n :: n in channels ==> MadeFrom(channels[n], specs[n])
      decreases rest
    {
      var n :| n in rest;
      var c := new Channel(EmptyData(specs[n]));
      channels := channels[n := c];
      rest := rest - {n};
    }
  }

  lemma ClonesShareLogs(clones: map<string, Channel>, channels: map<string, Channel>)
    requires ClonesOf(clones, channels, channels.Keys)
    ensures LogsOf(clones) == LogsOf(channels)
  {
  }

  lemma LogsOfBoth(left: map<string, Channel>, right: map<string, Channel>)
    ensures LogsOf(left + right) == LogsOf(left) + LogsOf(right)
  {
  }

  twostate lemma HandlesOfBoth(new left: map<string, Channel>, new right: map<string, Channel>)
    requires NewHandles(left) && NewHandles(right)
    requires forall m, n :: m in left && n in right ==> left[m] != right[n]
    ensures NewHandles(left + right)
  {
  }

  datatype SetError = NonExistingChannel | FailedToAppend(error: AppendError)

  class ChannelSet {
    var channels: map<string, Channel>

    ghost predicate Valid()
      reads this, Footprint(channels), Contents(channels)
    {
      AllValid(channels)
    }

    constructor (channels: map<string, Channel>)
      requires AllValid(channels)
      ensures Valid() && this.channels == channels
    {
      this.channels := channels;
    }

    /** New channels, one for each spec: open, empty, of the right type and with a log of their own. */
    constructor FromSpecs(specs: map<string, Spec>)
      ensures Valid() && NewHandles(channels) && NewLogs(channels)
      ensures channels.Keys == specs.Keys
      ensures forall n :: n in channels ==> MadeFrom(channels[n], specs[n])
    {
      var made := MakeAll(specs);
      channels := made;
    }

    /** The channels of both sets; where a name is in both, the other set's. */
    method Merge(other: ChannelSet) returns (merged: ChannelSet)
      requires Valid() && other.Valid()
      ensures fresh(merged) && merged.Valid() && NewHandles(merged.channels)
      ensures LogsOf(merged.channels) == LogsOf(channels) + LogsOf(other.channels)
      ensures forall n :: n in merged.channels ==>
                merged.channels[n].pos == (if n in other.channels then other.channels[n] else channels[n]).pos
    {
      var left := CloneAll(channels);
      var right := CloneAll(other.channels);
      ClonesShareLogs(left, channels);
      ClonesShareLogs(right, other.channels);
      LogsOfBoth(left, right);
      HandlesOfBoth(left, right);
      merged := new ChannelSet(left + right);
    }

    method Reader() returns (reader: ChannelSet)
      requires Valid()
      ensures fresh(reader) && reader.Valid() && NewHandles(reader.channels)
      ensures ClonesOf(reader.channels, channels, channels.Keys)
    {
      var clones := CloneAll(channels);
      reader := new ChannelSet(clones);
    }

    method Validate(required: map<string, Spec>, optional: map<string, Spec>)
      returns (r: Result<(), seq<Problem<Kind, Spec>>>)
      ensures r.Ok? <==> Conforms(KindsOf(LogsOf(channels)), required, optional, KindMatches)
      ensures r.Err? ==> r.error != []
                         && forall p :: p in r.error <==> Wrong(p, KindsOf(LogsOf(channels)), required, optional, KindMatches)
    {
      var kinds := KindsOf(LogsOf(channels));
      var rs := Drain(required.Keys);
      var os := Drain(optional.Keys);
      var cs := Drain(kinds.Keys);
      NamesDrained(required.Keys, rs);
      NamesDrained(optional.Keys, os);
      NamesDrained(kinds.Keys, cs);
      var problems := Validation.Validate(kinds, required, optional, KindMatches, rs, os, cs);
      ValidExactly(kinds, required, optional, KindMatches, rs, os, cs);
      forall p: Problem<Kind, Spec>
        ensures p in problems <==> Wrong(p, kinds, required, optional, KindMatches)
      {
        ReportsExactly(kinds, required, optional, KindMatches, rs, os, cs, p);
      }
      r := if problems == [] then Ok(()) else Err(problems);
    }

    method AppendChannel(name: string, value: TypedData) returns (r: Result<(), SetError>)
      requires Valid()
      requires name in channels ==> Len(channels[name].log.data) + Len(value) < HALF
      modifies if name in channels then {channels[name].log} else {}
      ensures Valid()
      ensures KindsOf(LogsOf(channels)) == old(KindsOf(LogsOf(channels)))
      ensures name !in channels ==> r == Err(NonExistingChannel)
      ensures name in channels ==>
                && GrownTo(old(channels[name].log.data), channels[name].log.data)
                && channels[name].log.closed == old(channels[name].log.closed)
                && (r.Ok? <==> !channels[name].log.closed && KindOf(value) == KindOf(channels[name].log.data))
                && (r.Ok? ==> channels[name].log.data == Extend(old(channels[name].log.data), value))
                && (r.Ok? ==> Appended(old(channels[name].log.data), value, channels[name].log.data))
                && (r.Err? ==> channels[name].log.data == old(channels[name].log.data) && r.error.FailedToAppend?)
    {
      if name !in channels {
        return Err(NonExistingChannel);
      }
      var c := channels[name];
      var appended := c.Append(value);
      GrownLen(old(c.log.data), c.log.data);
      match appended
      case Ok(_) => r := Ok(());
      case Err(e) => r := Err(FailedToAppend(e));
    }

    method CloseChannel(name: string)
      requires Valid()
      modifies if name in channels then {channels[name].log} else {}
      ensures Valid()
      ensures KindsOf(LogsOf(channels)) == old(KindsOf(LogsOf(channels)))
      ensures name in channels ==> channels[name].log.closed && channels[name].log.data == old(channels[name].log.data)
    {
      if name in channels {
        channels[name].Close();
      }
    }
  }

  lemma NamesDrained(m: set<string>, names: seq<string>)
    requires NoDup(names) && Elements(names) == m
    ensures Names(m, names)
  {
    forall n
      ensures n in names <==> n in m
    {
      assert n in Elements(names) <==> n in names;
    }
  }

  /** Merging does not depend on how sets are grouped, and depends on their order exactly where they
      disagree about a name. */
  lemma MergeLaws(a: map<string, Log>, b: map<string, Log>, c: map<string, Log>)
    ensures (a + b) + c == a + (b + c)
    ensures a + b == b + a <==> forall n :: n in a && n in b ==> a[n] == b[n]
  {
    if a + b == b + a {
      forall n | n in a && n in b
        ensures a[n] == b[n]
      {
        assert (a + b)[n] == b[n] && (b + a)[n] == a[n];
      }
    }
  }

  function DataKinds(data: map<string, TypedData>): map<string, Kind> {
    map n | n in data :: KindOf(data[n])
  }

  /** Validation sees the same channels however far their logs have grown. */
  lemma GrowthKeepsKinds(data: map<string, TypedData>, later: map<string, TypedData>)
    requires data.Keys == later.Keys && forall n :: n in data ==> GrownTo(data[n], later[n])
    ensures DataKinds(later) == DataKinds(data)
  {
    forall n | n in data
      ensures KindOf(later[n]) == KindOf(data[n])
    {
      GrownLen(data[n], later[n]);
    }
  }
}
