/** The key-based JSON codec. The writer emits one member per field; the
    reader walks the members of an object, keeps the five it recognises by
    name, skips every other member whatever its shape, and defaults what is
    missing. JSON text is taken as already tokenised into a `Json` tree. */
module JsonCodec {
  import opened Wrappers
  import opened ConfigTypes
  import opened FeatureConfigs

  /** A parsed JSON value. Numbers are modelled as integers. */
  datatype Json =
    | JNull
    | JBool(b: bool)
    | JNumber(n: int)
    | JString(s: string)
    | JArray(items: seq<Json>)
    | JObject(members: seq<Member>)

  /** One `"key": value` member of an object, in document order. */
  type Member = (string, Json)

  const ConfigIdTag: string := "configId"
  const NameTag: string := "name"
  const DescriptionTag: string := "description"
  const ConfigTypeTag: string := "configType"
  const IsEnabledTag: string := "isEnabled"

  /** The keys the reader interprets; every other key is skipped. */
  const RecognisedKeys: set<string> := {ConfigIdTag, NameTag, DescriptionTag, ConfigTypeTag, IsEnabledTag}

  /** No two members share a key. */
  predicate DistinctKeys(ms: seq<Member>) {
    forall i, j :: 0 <= i < j < |ms| ==> ms[i].0 != ms[j].0
  }

  /** The JSON object form of a record: the five recognised keys, each once. */
  function ToJson(c: FeatureConfig): (j: Json)
    ensures j.JObject? && |j.members| == 5 && DistinctKeys(j.members)
    ensures forall i :: 0 <= i < 5 ==> j.members[i].0 in RecognisedKeys
    ensures j.members[3] == (ConfigTypeTag, JString(Token(c.configType)))
  {
    JObject([(ConfigIdTag, JString(c.configId)),
             (NameTag, JString(c.name)),
             (DescriptionTag, JString(c.description)),
             (ConfigTypeTag, JString(Token(c.configType))),
             (IsEnabledTag, JBool(c.isEnabled))])
  }

  /** The fields read so far. The id and the name stay `None` until a member
      supplies them; the others start at their defaults (an empty
      description, the `NoneType` config type, enabled). */
  datatype Draft = Draft(
    configId: Option<string>,
    name: Option<string>,
    description: string,
    configType: ConfigType,
    isEnabled: bool)

  const Blank: Draft := Draft(None, None, "", NoneType, true)

  /** Whether a member's value has the kind its key calls for: a boolean for
      `isEnabled`, a string for the other recognised keys, anything at all
      for an unknown key. */
  predicate Fits(m: Member) {
    if m.0 == IsEnabledTag then m.1.JBool?
    else if m.0 in RecognisedKeys then m.1.JString?
    else true
  }

  /** Takes one member into the draft. */
  function Absorb(d: Draft, m: Member): (r: Result<Draft, Error>)
    ensures r.Failure? <==> !Fits(m)
    ensures r.Failure? ==> r.error == MalformedInput
    ensures m.0 !in RecognisedKeys ==> r == Success(d)
  {
    var (key, v) := m;
    if key == ConfigIdTag then
      if v.JString? then Success(d.(configId := Some(v.s))) else Failure(MalformedInput)
    else if key == NameTag then
      if v.JString? then Success(d.(name := Some(v.s))) else Failure(MalformedInput)
    else if key == DescriptionTag then
      if v.JString? then Success(d.(description := v.s)) else Failure(MalformedInput)
    else if key == ConfigTypeTag then
      if v.JString? then Success(d.(configType := FromToken(v.s))) else Failure(MalformedInput)
    else if key == IsEnabledTag then
      if v.JBool? then Success(d.(isEnabled := v.b)) else Failure(MalformedInput)
    else
      Success(d)
  }

  /** Takes the members into the draft in document order. */
  function ReadMembers(d: Draft, ms: seq<Member>): Result<Draft, Error>
    decreases |ms|
  {
    if ms == [] then Success(d)
    else
      var d' :- Absorb(d, ms[0]);
      ReadMembers(d', ms[1..])
  }

  /** Hands the extracted fields to the checked constructor; an absent id or
      name is refused like an empty one. */
  function Finish(d: Draft): (r: Result<FeatureConfig, Error>)
    ensures r.Success? <==> d.configId.Some? && d.configId.value != "" && d.name.Some? && d.name.value != ""
    ensures r.Failure? ==> r.error == InvalidArgument
    ensures r.Success? ==> r.value.Valid()
    ensures r.Success? ==>
      r.value == FeatureConfig(d.configId.value, d.name.value, d.description, d.configType, d.isEnabled)
  {
    if d.configId.None? || d.name.None? then Failure(InvalidArgument)
    else Create(d.configId.value, d.name.value, d.description, d.configType, d.isEnabled)
  }

  /** Reads a record from a JSON value. */
  function Parse(j: Json): (r: Result<FeatureConfig, Error>)
    ensures !j.JObject? ==> r == Failure(MalformedInput)
    ensures r.Success? ==> r.value.Valid()
  {
    match j
    case JObject(ms) =>
      var d :- ReadMembers(Blank, ms);
      Finish(d)
    case _ => Failure(MalformedInput)
  }

  // ---------------------------------------------------------------------
  // A by-name reference reading, and its agreement with the reader
  // ---------------------------------------------------------------------

  /** The value of the last member named `key`: the one a reader that
      overwrites as it goes ends up keeping. */
  function LastValue(ms: seq<Member>, key: string): Option<Json>
    decreases |ms|
  {
    if ms == [] then None
    else
      match LastValue(ms[1..], key)
      case Some(v) => Some(v)
      case None => if ms[0].0 == key then Some(ms[0].1) else None
  }

  /** `LastValue` finds a member named `key` when there is one, and the one
      it finds has no later member of that name. */
  lemma {:induction false} LastValueSpec(ms: seq<Member>, key: string)
    ensures LastValue(ms, key).None? <==> forall i :: 0 <= i < |ms| ==> ms[i].0 != key
    ensures LastValue(ms, key).Some? ==>
      exists i :: 0 <= i < |ms| && ms[i] == (key, LastValue(ms, key).value)
        && forall j :: i < j < |ms| ==> ms[j].0 != key
    decreases |ms|
  {
    if ms != [] {
      var rest := ms[1..];
      LastValueSpec(rest, key);
      assert forall j :: 0 <= j < |rest| ==> rest[j] == ms[j + 1];
      match LastValue(rest, key)
      case Some(v) =>
        var i :| 0 <= i < |rest| && rest[i] == (key, v) && forall j :: i < j < |rest| ==> rest[j].0 != key;
        assert ms[i + 1] == (key, v);
      case None =>
        if ms[0].0 == key {
          assert ms[0] == (key, ms[0].1);
        }
    }
  }

  /** The string held by the last member named `key`, if it is a string. */
  function StringAt(ms: seq<Member>, key: string): Option<string> {
    match LastValue(ms, key)
    case Some(JString(s)) => Some(s)
    case _ => None
  }

  /** The boolean held by the last member named `key`, if it is a boolean. */
  function BoolAt(ms: seq<Member>, key: string): Option<bool> {
    match LastValue(ms, key)
    case Some(JBool(b)) => Some(b)
    case _ => None
  }

  /** The draft `d` with every field the members name replaced by the value
      of the last member naming it. */
  function Override(d: Draft, ms: seq<Member>): Draft {
    Draft(
      if StringAt(ms, ConfigIdTag).Some? then StringAt(ms, ConfigIdTag) else d.configId,
      if StringAt(ms, NameTag).Some? then StringAt(ms, NameTag) else d.name,
      match StringAt(ms, DescriptionTag) case Some(s) => s case None => d.description,
      match StringAt(ms, ConfigTypeTag) case Some(s) => FromToken(s) case None => d.configType,
      match BoolAt(ms, IsEnabledTag) case Some(b) => b case None => d.isEnabled)
  }

  /** Every member's value has the kind its key calls for. */
  predicate WellTyped(ms: seq<Member>) {
    forall i :: 0 <= i < |ms| ==> Fits(ms[i])
  }

  /** Looking past the first member. */
  lemma LastValueCons(m: Member, ms: seq<Member>, key: string)
    ensures LastValue([m] + ms, key) ==
      match LastValue(ms, key)
      case Some(v) => Some(v)
      case None => if m.0 == key then Some(m.1) else None
  {
    assert ([m] + ms)[1..] == ms;
  }

  /** Well-typedness, one member at a time. */
  lemma WellTypedCons(m: Member, ms: seq<Member>)
    ensures WellTyped([m] + ms) <==> Fits(m) && WellTyped(ms)
  {
    var all := [m] + ms;
    if Fits(m) && WellTyped(ms) {
      forall i | 0 <= i < |all| ensures Fits(all[i]) {
        if i > 0 { assert all[i] == ms[i - 1]; }
      }
    }
    if WellTyped(all) {
      forall i | 0 <= i < |ms| ensures Fits(ms[i]) {
        assert ms[i] == all[i + 1];
      }
      assert all[0] == m;
    }
  }

  /** In a well-typed object, the member a by-name lookup finds holds the
      kind of value its key calls for. */
  lemma LastValueFits(ms: seq<Member>, key: string)
    requires WellTyped(ms)
    ensures LastValue(ms, key).Some? ==> Fits((key, LastValue(ms, key).value))
  {
    LastValueSpec(ms, key);
  }

  /** Taking the first member and then overriding with the rest is the same
      as overriding with all of them. */
  lemma OverrideCons(d: Draft, m: Member, ms: seq<Member>)
    requires Fits(m) && WellTyped(ms)
    ensures Override(Absorb(d, m).value, ms) == Override(d, [m] + ms)
  {
    LastValueFits(ms, ConfigIdTag);
    LastValueFits(ms, NameTag);
    LastValueFits(ms, DescriptionTag);
    LastValueFits(ms, ConfigTypeTag);
    LastValueFits(ms, IsEnabledTag);
    LastValueCons(m, ms, ConfigIdTag);
    LastValueCons(m, ms, NameTag);
    LastValueCons(m, ms, DescriptionTag);
    LastValueCons(m, ms, ConfigTypeTag);
    LastValueCons(m, ms, IsEnabledTag);
  }

  /** The member-by-member reader agrees with the by-name reference: it
      fails with `MalformedInput` exactly when some member holds the wrong
      kind of value, and otherwise each field comes from the last member
      naming it. */
  lemma {:induction false} ReadMembersByKey(d: Draft, ms: seq<Member>)
    ensures ReadMembers(d, ms) ==
      if WellTyped(ms) then Success(Override(d, ms)) else Failure(MalformedInput)
    decreases |ms|
  {
    if ms == [] {
      assert Override(d, ms) == d;
    } else {
      var m, rest := ms[0], ms[1..];
      assert ms == [m] + rest;
      WellTypedCons(m, rest);
      if Fits(m) {
        ReadMembersByKey(Absorb(d, m).value, rest);
        if WellTyped(rest) {
          OverrideCons(d, m, rest);
        }
      }
    }
  }

  /** The whole object reader stated by name rather than by position. */
  lemma ParseByKey(ms: seq<Member>)
    ensures Parse(JObject(ms)) ==
      if WellTyped(ms) then Finish(Override(Blank, ms)) else Failure(MalformedInput)
  {
    ReadMembersByKey(Blank, ms);
  }

  // ---------------------------------------------------------------------
  // Round trip
  // ---------------------------------------------------------------------

  /** A valid record written as JSON reads back as itself. */
  lemma RoundTrip(c: FeatureConfig)
    requires c.Valid()
    ensures Parse(ToJson(c)) == Success(c)
  {
    var ms := ToJson(c).members;
    ParseByKey(ms);
    assert ms[0] == (ConfigIdTag, JString(c.configId));
    assert ms[1] == (NameTag, JString(c.name));
    assert ms[2] == (DescriptionTag, JString(c.description));
    assert ms[3] == (ConfigTypeTag, JString(Token(c.configType)));
    assert ms[4] == (IsEnabledTag, JBool(c.isEnabled));
    LastValueDistinct(ms, ConfigIdTag, JString(c.configId));
    LastValueDistinct(ms, NameTag, JString(c.name));
    LastValueDistinct(ms, DescriptionTag, JString(c.description));
    LastValueDistinct(ms, ConfigTypeTag, JString(Token(c.configType)));
    LastValueDistinct(ms, IsEnabledTag, JBool(c.isEnabled));
    assert WellTyped(ms);
  }

  // ---------------------------------------------------------------------
  // Unknown members
  // ---------------------------------------------------------------------

  /** The members whose key the reader recognises, in document order. */
  function Recognised(ms: seq<Member>): (r: seq<Member>)
    ensures forall i :: 0 <= i < |r| ==> r[i].0 in RecognisedKeys
    ensures |r| <= |ms|
  {
    if ms == [] then []
    else (if ms[0].0 in RecognisedKeys then [ms[0]] else []) + Recognised(ms[1..])
  }

  lemma {:induction false} RecognisedAppend(a: seq<Member>, b: seq<Member>)
    ensures Recognised(a + b) == Recognised(a) + Recognised(b)
  {
    if a == [] {
      assert a + b == b;
    } else {
      assert (a + b)[0] == a[0];
      assert (a + b)[1..] == a[1..] + b;
      RecognisedAppend(a[1..], b);
    }
  }

  lemma {:induction false} ReadMembersSkipsUnknown(d: Draft, ms: seq<Member>)
    ensures ReadMembers(d, ms) == ReadMembers(d, Recognised(ms))
    decreases |ms|
  {
    if ms != [] {
      var r := Recognised(ms[1..]);
      if ms[0].0 in RecognisedKeys {
        assert Recognised(ms) == [ms[0]] + r;
        assert ([ms[0]] + r)[1..] == r;
        match Absorb(d, ms[0])
        case Success(d') => ReadMembersSkipsUnknown(d', ms[1..]);
        case Failure(_) =>
      } else {
        assert Recognised(ms) == r;
        ReadMembersSkipsUnknown(d, ms[1..]);
      }
    }
  }

  /** Members with unknown keys, whatever their shape, do not affect the
      result: an object reads exactly as the object of its recognised
      members alone. */
  lemma IgnoresUnknownMembers(ms: seq<Member>)
    ensures Parse(JObject(ms)) == Parse(JObject(Recognised(ms)))
  {
    ReadMembersSkipsUnknown(Blank, ms);
  }

  /** Adding a member with an unknown key anywhere in an object leaves the
      result unchanged. */
  lemma InsertUnknownMember(ms: seq<Member>, i: nat, m: Member)
    requires i <= |ms|
    requires m.0 !in RecognisedKeys
    ensures Parse(JObject(ms[..i] + [m] + ms[i..])) == Parse(JObject(ms))
  {
    var ms' := ms[..i] + [m] + ms[i..];
    RecognisedAppend(ms[..i] + [m], ms[i..]);
    RecognisedAppend(ms[..i], [m]);
    RecognisedAppend(ms[..i], ms[i..]);
    assert Recognised([m]) == [] by { assert [m][1..] == []; }
    assert ms[..i] + ms[i..] == ms;
    assert Recognised(ms') == Recognised(ms[..i]) + [] + Recognised(ms[i..]);
    assert Recognised(ms[..i]) + [] + Recognised(ms[i..]) == Recognised(ms);
    IgnoresUnknownMembers(ms');
    IgnoresUnknownMembers(ms);
  }

  /** Appending any number of unknown-key members leaves the result unchanged. */
  lemma AppendUnknownMembers(ms: seq<Member>, extra: seq<Member>)
    requires forall i :: 0 <= i < |extra| ==> extra[i].0 !in RecognisedKeys
    ensures Parse(JObject(ms + extra)) == Parse(JObject(ms))
  {
    RecognisedAppend(ms, extra);
    assert Recognised(extra) == [] by {
      if Recognised(extra) != [] {
        var k := Recognised(extra)[0].0;
        assert k in RecognisedKeys;
        RecognisedOnlyFrom(extra, 0);
      }
    }
    assert Recognised(ms) + [] == Recognised(ms);
    IgnoresUnknownMembers(ms + extra);
    IgnoresUnknownMembers(ms);
  }

  /** Every recognised member comes from the input. */
  lemma {:induction false} RecognisedOnlyFrom(ms: seq<Member>, k: nat)
    requires k < |Recognised(ms)|
    ensures exists i :: 0 <= i < |ms| && ms[i] == Recognised(ms)[k]
  {
    var r := Recognised(ms[1..]);
    if ms[0].0 in RecognisedKeys {
      assert Recognised(ms) == [ms[0]] + r;
      if k > 0 {
        RecognisedOnlyFrom(ms[1..], k - 1);
        var i :| 0 <= i < |ms[1..]| && ms[1..][i] == r[k - 1];
        assert ms[i + 1] == Recognised(ms)[k];
      }
    } else {
      assert Recognised(ms) == r;
      RecognisedOnlyFrom(ms[1..], k);
      var i :| 0 <= i < |ms[1..]| && ms[1..][i] == r[k];
      assert ms[i + 1] == Recognised(ms)[k];
    }
  }

  // ---------------------------------------------------------------------
  // Member order
  // ---------------------------------------------------------------------

  /** With distinct keys, the last member named `key` is the only one. */
  lemma LastValueDistinct(ms: seq<Member>, key: string, v: Json)
    requires DistinctKeys(ms)
    ensures LastValue(ms, key) == Some(v) <==> (key, v) in ms
  {
    LastValueSpec(ms, key);
    if (key, v) in ms {
      var i :| 0 <= i < |ms| && ms[i] == (key, v);
      var w := LastValue(ms, key);
      assert w.Some?;
      var i' :| 0 <= i' < |ms| && ms[i'] == (key, w.value) && forall j :: i' < j < |ms| ==> ms[j].0 != key;
      assert i == i';
    }
  }

  /** Every member of each list is a member of the other. */
  predicate SameMembers(ms: seq<Member>, ms': seq<Member>) {
    && (forall i :: 0 <= i < |ms| ==> ms[i] in ms')
    && (forall i :: 0 <= i < |ms'| ==> ms'[i] in ms)
  }

  /** The order of the members of an object does not matter when no key is
      repeated: objects with the same members read alike. */
  lemma OrderIrrelevant(ms: seq<Member>, ms': seq<Member>)
    requires DistinctKeys(ms) && DistinctKeys(ms')
    requires SameMembers(ms, ms')
    ensures Parse(JObject(ms)) == Parse(JObject(ms'))
  {
    ParseByKey(ms);
    ParseByKey(ms');
    assert WellTyped(ms) <==> WellTyped(ms') by {
      if WellTyped(ms) {
        forall i | 0 <= i < |ms'| ensures Fits(ms'[i]) {
          assert ms'[i] in ms;
        }
      }
      if WellTyped(ms') {
        forall i | 0 <= i < |ms| ensures Fits(ms[i]) {
          assert ms[i] in ms';
        }
      }
    }
    forall key | key in RecognisedKeys ensures LastValue(ms, key) == LastValue(ms', key) {
      match LastValue(ms, key)
      case Some(v) =>
        LastValueDistinct(ms, key, v);
        LastValueDistinct(ms', key, v);
      case None =>
        if LastValue(ms', key).Some? {
          LastValueDistinct(ms', key, LastValue(ms', key).value);
          LastValueDistinct(ms, key, LastValue(ms', key).value);
        }
    }
    assert Override(Blank, ms) == Override(Blank, ms');
  }

  // ---------------------------------------------------------------------
  // Defaults, fallbacks and required fields
  // ---------------------------------------------------------------------

  /** An object with no `isEnabled` member reads as enabled. */
  lemma DefaultEnabled(ms: seq<Member>)
    requires forall i :: 0 <= i < |ms| ==> ms[i].0 != IsEnabledTag
    ensures Parse(JObject(ms)).Success? ==> Parse(JObject(ms)).value.isEnabled
  {
    ParseByKey(ms);
    LastValueSpec(ms, IsEnabledTag);
  }

  /** Looking past the last member. */
  lemma {:induction false} LastValueSnoc(ms: seq<Member>, m: Member, key: string)
    ensures LastValue(ms + [m], key) == if m.0 == key then Some(m.1) else LastValue(ms, key)
    decreases |ms|
  {
    if ms == [] {
      assert ([] + [m])[1..] == [];
    } else {
      assert (ms + [m])[1..] == ms[1..] + [m];
      LastValueSnoc(ms[1..], m, key);
    }
  }

  /** Well-typedness of a concatenation, part by part. */
  lemma WellTypedAppend(a: seq<Member>, b: seq<Member>)
    ensures WellTyped(a + b) <==> WellTyped(a) && WellTyped(b)
  {
    if WellTyped(a + b) {
      forall i | 0 <= i < |a| ensures Fits(a[i]) { assert (a + b)[i] == a[i]; }
      forall i | 0 <= i < |b| ensures Fits(b[i]) { assert (a + b)[|a| + i] == b[i]; }
    }
  }

  /** A `configType` token this reader does not know reads as `NoneType`
      rather than failing: the object reads exactly as it would with the
      token "None" in its place, so the unknown token changes nothing but
      the type, and a successful read holds `NoneType`. */
  lemma UnknownTypeFallback(ms: seq<Member>, token: string)
    requires token !in KnownTokens
    requires LastValue(ms, ConfigTypeTag) == Some(JString(token))
    ensures Parse(JObject(ms)) == Parse(JObject(ms + [(ConfigTypeTag, JString("None"))]))
    ensures Parse(JObject(ms)).Success? ==> Parse(JObject(ms)).value.configType == NoneType
  {
    var m := (ConfigTypeTag, JString("None"));
    ParseByKey(ms);
    ParseByKey(ms + [m]);
    WellTypedAppend(ms, [m]);
    LastValueSnoc(ms, m, ConfigIdTag);
    LastValueSnoc(ms, m, NameTag);
    LastValueSnoc(ms, m, DescriptionTag);
    LastValueSnoc(ms, m, ConfigTypeTag);
    LastValueSnoc(ms, m, IsEnabledTag);
    assert Override(Blank, ms) == Override(Blank, ms + [m]);
  }

  /** Through the JSON path the same validation as direct construction
      applies: a well-typed object reads successfully exactly when it names a
      non-empty id and a non-empty name, and fails with `InvalidArgument`
      otherwise. */
  lemma RequiredFields(ms: seq<Member>)
    requires WellTyped(ms)
    ensures Parse(JObject(ms)).Success? <==>
      && StringAt(ms, ConfigIdTag).Some? && StringAt(ms, ConfigIdTag).value != ""
      && StringAt(ms, NameTag).Some? && StringAt(ms, NameTag).value != ""
    ensures Parse(JObject(ms)).Failure? ==> Parse(JObject(ms)).error == InvalidArgument
  {
    ParseByKey(ms);
  }

  // ---------------------------------------------------------------------
  // The documents the record's own tests read
  // ---------------------------------------------------------------------

  /** A complete Email record followed by three members nobody registered (an
      array, a nested object and a string) reads as the record alone. */
  lemma ExtraMembersDocument()
    ensures Parse(JObject([
      (ConfigIdTag, JString("configId")),
      (NameTag, JString("name")),
      (DescriptionTag, JString("description")),
      (ConfigTypeTag, JString("Email")),
      (IsEnabledTag, JBool(true)),
      ("extra_field_1", JArray([JString("extra"), JString("value")])),
      ("extra_field_2", JObject([("extra", JString("value"))])),
      ("extra_field_3", JString("extra value 3"))]))
      == Create("configId", "name", "description", Email)
  {
    var c := FeatureConfig("configId", "name", "description", Email, true);
    var extra := [
      ("extra_field_1", JArray([JString("extra"), JString("value")])),
      ("extra_field_2", JObject([("extra", JString("value"))])),
      ("extra_field_3", JString("extra value 3"))];
    assert Token(Email) == "Email";
    assert forall i :: 0 <= i < |extra| ==> extra[i].0 !in RecognisedKeys by {
      assert extra[0].0[0] == 'e' && extra[1].0[0] == 'e' && extra[2].0[0] == 'e';
    }
    AppendUnknownMembers(ToJson(c).members, extra);
    RoundTrip(c);
    var doc := [
      (ConfigIdTag, JString("configId")),
      (NameTag, JString("name")),
      (DescriptionTag, JString("description")),
      (ConfigTypeTag, JString("Email")),
      (IsEnabledTag, JBool(true)),
      ("extra_field_1", JArray([JString("extra"), JString("value")])),
      ("extra_field_2", JObject([("extra", JString("value"))])),
      ("extra_field_3", JString("extra value 3"))];
    assert doc == ToJson(c).members + extra;
    assert Create("configId", "name", "description", Email) == Success(c);
  }

  /** A record naming a config type this reader does not know, with no
      `isEnabled` member, reads as an enabled `NoneType` record. */
  lemma UnknownTypeDocument()
    ensures Parse(JObject([
      (ConfigIdTag, JString("configId")),
      (NameTag, JString("name")),
      (DescriptionTag, JString("description")),
      (ConfigTypeTag, JString("NewConfig"))]))
      == Create("configId", "name", "description", NoneType)
  {
    var ms := [
      (ConfigIdTag, JString("configId")),
      (NameTag, JString("name")),
      (DescriptionTag, JString("description")),
      (ConfigTypeTag, JString("NewConfig"))];
    assert "NewConfig" !in KnownTokens by {
      assert "NewConfig"[0] == 'N' && "NewConfig"[1] == 'e' && "NewConfig"[2] == 'w';
    }
    assert FromToken("NewConfig") == NoneType;
    var d1 := Absorb(Blank, ms[0]).value;
    var d2 := Absorb(d1, ms[1]).value;
    var d3 := Absorb(d2, ms[2]).value;
    var d4 := Absorb(d3, ms[3]).value;
    assert ReadMembers(Blank, ms) == ReadMembers(d1, ms[1..]);
    assert ReadMembers(d1, ms[1..]) == ReadMembers(d2, ms[2..]) by { assert ms[1..][1..] == ms[2..]; }
    assert ReadMembers(d2, ms[2..]) == ReadMembers(d3, ms[3..]) by { assert ms[2..][1..] == ms[3..]; }
    assert ReadMembers(d3, ms[3..]) == ReadMembers(d4, []) by { assert ms[3..][1..] == []; }
  }
}
