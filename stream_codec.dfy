/** The ordered-field stream codec: the writer puts the five fields in a fixed
    order, and the reader takes them off the front of a stream in that same
    order, leaving whatever follows for the next reader. */
module StreamCodec {
  import opened Wrappers
  import opened ConfigTypes
  import opened FeatureConfigs

  /** One primitive item of a structured stream. */
  datatype Field = FString(s: string) | FBool(b: bool)

  /** The stream form of a record: id, name, description, type token, enabled. */
  function Write(c: FeatureConfig): (fs: seq<Field>)
    ensures |fs| == 5
    ensures fs[0] == FString(c.configId) && fs[1] == FString(c.name)
    ensures fs[2] == FString(c.description)
    ensures fs[3] == FString(Token(c.configType)) && FromToken(fs[3].s) == c.configType
    ensures fs[4] == FBool(c.isEnabled)
  {
    [FString(c.configId), FString(c.name), FString(c.description),
     FString(Token(c.configType)), FBool(c.isEnabled)]
  }

  /** Takes one string off the front of the stream. */
  function ReadString(fs: seq<Field>): (r: Result<(string, seq<Field>), Error>)
    ensures r.Success? <==> |fs| > 0 && fs[0].FString?
    ensures r.Success? ==> fs == [FString(r.value.0)] + r.value.1
    ensures r.Failure? ==> r.error == MalformedInput
  {
    if |fs| > 0 && fs[0].FString? then Success((fs[0].s, fs[1..])) else Failure(MalformedInput)
  }

  /** Takes one boolean off the front of the stream. */
  function ReadBool(fs: seq<Field>): (r: Result<(bool, seq<Field>), Error>)
    ensures r.Success? <==> |fs| > 0 && fs[0].FBool?
    ensures r.Success? ==> fs == [FBool(r.value.0)] + r.value.1
    ensures r.Failure? ==> r.error == MalformedInput
  {
    if |fs| > 0 && fs[0].FBool? then Success((fs[0].b, fs[1..])) else Failure(MalformedInput)
  }

  /** The shape `Write` produces: four strings then a boolean. */
  predicate WellFormedPrefix(fs: seq<Field>) {
    |fs| >= 5 && fs[0].FString? && fs[1].FString? && fs[2].FString? && fs[3].FString? && fs[4].FBool?
  }

  /** Reads one record off the front of the stream and returns it with the
      rest of the stream. A stream too short or holding the wrong kind of
      field fails with `MalformedInput`; a well-formed one is still validated
      like a direct construction, so an empty id or name fails with
      `InvalidArgument`. */
  function Read(fs: seq<Field>): (r: Result<(FeatureConfig, seq<Field>), Error>)
    ensures !WellFormedPrefix(fs) ==> r == Failure(MalformedInput)
    ensures WellFormedPrefix(fs) ==>
      (r.Failure? <==> fs[0].s == "" || fs[1].s == "") &&
      (r.Failure? ==> r.error == InvalidArgument)
    ensures r.Success? ==> && r.value.0.Valid()
                           && r.value.0.configId == fs[0].s && r.value.0.name == fs[1].s
                           && r.value.0.description == fs[2].s
                           && r.value.0.configType == FromToken(fs[3].s)
                           && r.value.0.isEnabled == fs[4].b
                           && r.value.1 == fs[5..]
  {
    var p0 :- ReadString(fs);
    var p1 :- ReadString(p0.1);
    var p2 :- ReadString(p1.1);
    var p3 :- ReadString(p2.1);
    var p4 :- ReadBool(p3.1);
    var c :- Create(p0.0, p1.0, p2.0, FromToken(p3.0), p4.0);
    Success((c, p4.1))
  }

  /** What is written is read back: the same record, and the reader stops
      exactly where the writer stopped. */
  lemma RoundTrip(c: FeatureConfig, rest: seq<Field>)
    requires c.Valid()
    ensures Read(Write(c) + rest) == Success((c, rest))
  {
  }

  /** The reader re-runs construction validation: a record with an empty id
      or name (one the constructor would never have produced) is refused. */
  lemma RejectsInvalid(c: FeatureConfig, rest: seq<Field>)
    requires !c.Valid()
    ensures Read(Write(c) + rest) == Failure(InvalidArgument)
  {
  }
}
