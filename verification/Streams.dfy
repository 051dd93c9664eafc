/** From a manifest to a validated stream: what the conversion of a manifest, the parsing of arguments and
the validation of the result amount to together.
*/
module Streams {
  import opened Arguments
  import opened ChannelData
  import opened Channels
  import opened Listing
  import opened Results
  import opened Validation

  // ---------- manifests ----------

  datatype Input = Input(required: bool, type_: ChannelType, description: string)

  function RequiredInputs(inputs: map<string, Input>): map<string, Spec> {
    map n | n in inputs && inputs[n].required :: Some(inputs[n].type_)
  }

  function OptionalInputs(inputs: map<string, Input>): map<string, Spec> {
    map n | n in inputs && !inputs[n].required :: Some(inputs[n].type_)
  }

  /** Every input of a manifest becomes required or optional, none both, and keeps its type. */
  lemma ManifestSplits(inputs: map<string, Input>)
    ensures forall n :: n in RequiredInputs(inputs) <==> n in inputs && inputs[n].required
    ensures forall n :: n in OptionalInputs(inputs) <==> n in inputs && !inputs[n].required
    ensures RequiredInputs(inputs).Keys !! OptionalInputs(inputs).Keys
    ensures (RequiredInputs(inputs) + OptionalInputs(inputs)).Keys == inputs.Keys
    ensures forall n :: n in inputs ==> (RequiredInputs(inputs) + OptionalInputs(inputs))[n] == Some(inputs[n].type_)
  {
  }

  // ---------- streams ----------

  /** The type of a channel matches a spec; a channel without a value matches none. */
  predicate TypeMatches(d: TypedData, spec: Spec) {
    spec.Some? && KindMatches(KindOf(d), spec)
  }

  /** Each type takes the values of its own kind and nothing takes a channel without a value. */
  lemma TypeMatchesExactly(d: TypedData, spec: Spec)
    ensures TypeMatches(d, spec)
            <==> || (d.Strings? && spec == Some(StringType)) || (d.Integers? && spec == Some(IntType))
                 || (d.Floats? && spec == Some(FloatType)) || (d.Booleans? && spec == Some(BoolType))
                 || (d.Bytes? && spec == Some(BytesType))
  {
    KindMatchesExactly(d, spec);
  }

  /** The channels are what a function with these specs takes. */
  ghost predicate Fits(channels: map<string, TypedData>, required: map<string, Spec>, optional: map<string, Spec>) {
    Conforms(channels, required, optional, TypeMatches)
  }

  class Stream {
    var channels: map<string, TypedData>

    constructor (channels: map<string, TypedData>)
      ensures this.channels == channels
    {
      this.channels := channels;
    }

    method SetChannel(name: string, channel: TypedData)
      modifies this
      ensures channels == old(channels)[name := channel]
    {
      channels := channels[name := channel];
    }

    method Merge(other: map<string, TypedData>)
      modifies this
      ensures channels.Keys == old(channels).Keys + other.Keys
      ensures forall n :: n in channels ==> channels[n] == if n in other then other[n] else old(channels)[n]
    {
      channels := channels + other;
    }

    method Validate(required: map<string, Spec>, optional: map<string, Spec>)
      returns (r: Result<(), seq<Problem<TypedData, Spec>>>)
      ensures r.Ok? <==> Conforms(channels, required, optional, TypeMatches)
      ensures r.Err? ==> r.error != [] && Reports(r.error, channels, required, optional)
    {
      var rs := Drain(required.Keys);
      var os := Drain(optional.Keys);
      var cs := Drain(channels.Keys);
      NamesDrained(required.Keys, rs);
      NamesDrained(optional.Keys, os);
      NamesDrained(channels.Keys, cs);
      var problems := Validation.Validate(channels, required, optional, TypeMatches, rs, os, cs);
      ValidExactly(channels, required, optional, TypeMatches, rs, os, cs);
      ReportsAre(channels, required, optional, rs, os, cs);
      r := if problems == [] then Ok(()) else Err(problems);
    }
  }

  /** The problems are exactly what is wrong; each is there once if no input is both required and optional. */
  ghost predicate Reports(problems: seq<Problem<TypedData, Spec>>, channels: map<string, TypedData>,
                          required: map<string, Spec>, optional: map<string, Spec>)
  {
    && (forall p :: p in problems <==> Wrong(p, channels, required, optional, TypeMatches))
    && (required.Keys !! optional.Keys ==> NoDup(problems))
  }

  lemma ReportsAre(channels: map<string, TypedData>, required: map<string, Spec>, optional: map<string, Spec>,
                   rs: seq<string>, os: seq<string>, cs: seq<string>)
    requires NamesOf(channels, required, optional, rs, os, cs)
    ensures Reports(Validation.Validate(channels, required, optional, TypeMatches, rs, os, cs), channels, required, optional)
  {
    forall p: Problem<TypedData, Spec>
      ensures p in Validation.Validate(channels, required, optional, TypeMatches, rs, os, cs)
              <==> Wrong(p, channels, required, optional, TypeMatches)
    {
      ReportsExactly(channels, required, optional, TypeMatches, rs, os, cs, p);
    }
    if required.Keys !! optional.Keys {
      ReportsOnce(channels, required, optional, TypeMatches, rs, os, cs);
    }
  }

  // ---------- the chain ----------

  /** The stream has the channels that were named, all expected and of the right type. */
  lemma ParsedChannelFits(c: Arguments.Setup, inputs: map<string, Spec>, arguments: seq<(string, string)>, name: string)
    requires ParseArguments(c, inputs, arguments).Ok?
    ensures var stream := ParseArguments(c, inputs, arguments).value;
            && (name in stream <==> Named(arguments, name))
            && (name in stream ==> name in inputs && TypeMatches(stream[name], inputs[name]))
  {
    AllParse(c, inputs, arguments);
    GatherHas(c, inputs, arguments, name);
    if Named(arguments, name) {
      var i := LastOf(arguments, name);
      GatherLast(c, inputs, arguments, name, i);
      ParsedKind(c, name, arguments[i].1, inputs[name]);
    }
  }

  lemma {:induction false} LastOf(arguments: seq<(string, string)>, name: string) returns (i: int)
    requires Named(arguments, name)
    ensures LastNamed(arguments, name, i)
    decreases |arguments|
  {
    var last := |arguments| - 1;
    if arguments[last].0 == name {
      i := last;
    } else {
      NamedBySteps(arguments, name);
      i := LastOf(arguments[..last], name);
    }
  }

  /** What can be wrong with a stream parsed against a manifest: a required input nobody named. */
  lemma OnlyMissing(c: Arguments.Setup, manifest: map<string, Input>, arguments: seq<(string, string)>, p: Problem<TypedData, Spec>)
    requires ParseArguments(c, RequiredInputs(manifest) + OptionalInputs(manifest), arguments).Ok?
    ensures var stream := ParseArguments(c, RequiredInputs(manifest) + OptionalInputs(manifest), arguments).value;
            Wrong(p, stream, RequiredInputs(manifest), OptionalInputs(manifest), TypeMatches)
            <==> p.Missing? && p.name in RequiredInputs(manifest) && !Named(arguments, p.name)
  {
    ManifestSplits(manifest);
    ParsedChannelFits(c, RequiredInputs(manifest) + OptionalInputs(manifest), arguments, p.name);
  }

  /** If the arguments parse against a manifest's inputs, validating the stream reports one missing channel
      for each required input that was not named, and nothing else; without such inputs it succeeds. */
  lemma ParsedStreamsMissOnly(c: Arguments.Setup, manifest: map<string, Input>, arguments: seq<(string, string)>,
                              problems: seq<Problem<TypedData, Spec>>)
    requires ParseArguments(c, RequiredInputs(manifest) + OptionalInputs(manifest), arguments).Ok?
    requires var stream := ParseArguments(c, RequiredInputs(manifest) + OptionalInputs(manifest), arguments).value;
             Reports(problems, stream, RequiredInputs(manifest), OptionalInputs(manifest))
    ensures NoDup(problems)
    ensures forall p :: p in problems <==> p.Missing? && p.name in RequiredInputs(manifest) && !Named(arguments, p.name)
    ensures problems == [] <==> forall n :: n in RequiredInputs(manifest) ==> Named(arguments, n)
  {
    ManifestSplits(manifest);
    forall p: Problem<TypedData, Spec>
      ensures p in problems <==> p.Missing? && p.name in RequiredInputs(manifest) && !Named(arguments, p.name)
    {
      OnlyMissing(c, manifest, arguments, p);
    }
    if problems != [] {
      assert problems[0] in problems;
    }
    forall n | n in RequiredInputs(manifest) && !Named(arguments, n)
      ensures problems != []
    {
      var p: Problem<TypedData, Spec> := Missing(n);
      assert p in problems;
    }
  }
}
