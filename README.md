# FeatureConfig: a verified model of the notifications feature-config record

`FeatureConfig` is the configuration record of the Open Distro notifications
plugin that names one feature channel. It has five fields: `configId`, `name`,
`description`, `configType` and `isEnabled`. `configType` is one of Slack,
Chime, Webhook, Email or EmailGroup, or the fallback `None`. `isEnabled`
defaults to true. The record travels in two forms:

- an ordered stream of fields, written and read back in a fixed order;
- a JSON object read by key, which must survive schema changes. Unknown keys
  are skipped, an unknown `configType` token reads as `None`, and a missing
  `isEnabled` reads as true.

The model follows the behaviour the record's unit tests pin down; the
`FeatureConfig` implementation itself is not modelled. It is the smallest
definition that meets what those tests assert, and the lemmas state each
asserted behaviour for every input, not just the sample records the tests
use.

Modules, one per concern:

- `Wrappers`: `Option` and `Result`. A thrown `IllegalArgumentException`
  becomes `Failure(InvalidArgument)`.
- `ConfigTypes`: the `ConfigType` enumeration. The fallback is named
  `NoneType` so it does not clash with `Option.None`. Also holds the explicit
  token table in both directions.
- `FeatureConfigs`: the record, its validity predicate and the checked
  constructor `Create`.
- `StreamCodec`: the ordered-field codec over `seq<Field>`. The reader hands
  back the rest of the stream.
- `JsonCodec`: the key-based codec over an already-tokenised `Json` tree. The
  reader folds over the members in document order. A by-name reference
  reading (`Override`, built from `LastValue`) is proved equal to it. The
  round-trip, default, fallback and required-field properties are stated on
  `Parse` and proved through that reference; the unknown-key properties are
  stated on `Parse` and proved on the member-by-member reader, by showing it
  reads an object exactly as it reads the object's recognised members
  (`Recognised`).

Behaviour the tests leave open, and how the model settles it:

- A missing `description` reads as `""`.
- A missing `configType` reads as `NoneType`.
- A missing `configId` or `name` fails with `InvalidArgument`, like an empty
  one.
- A repeated key: the last member wins, as with a streaming reader that
  overwrites as it goes.
- A recognised key holding the wrong kind of value, or a document that is not
  an object, fails with `MalformedInput`. In the real system this error comes
  from the codec layer.
- The explicit token `"None"` reads the same as an unknown token.
- The stream reader, too, reads an unregistered type token as `NoneType`
  instead of failing.

## Model

| member | source | states |
|---|---|---|
| ConfigTypes.FromToken | notifications/src/test/kotlin/com/amazon/opendistroforelasticsearch/commons/notifications/model/FilterConfigTests.kt:104-121 | A token outside the table reads as `NoneType` instead of failing. `NoneType` comes back only for an unknown token or the token "None". |
| ConfigTypes.Token | notifications/src/test/kotlin/com/amazon/opendistroforelasticsearch/commons/notifications/model/FilterConfigTests.kt:53-77 | Every config type is written as a registered token, and `FromToken` reads that token back as the same type. |
| ConfigTypes.KnownTokenRoundTrip | notifications/src/test/kotlin/com/amazon/opendistroforelasticsearch/commons/notifications/model/FilterConfigTests.kt:80-101 | Every registered token is the canonical token of the type it reads as. |
| ConfigTypes.TokenInjective | notifications/src/test/kotlin/com/amazon/opendistroforelasticsearch/commons/notifications/model/FilterConfigTests.kt:53-77 | Distinct config types are written as distinct tokens. |
| FeatureConfigs.Create | notifications/src/test/kotlin/com/amazon/opendistroforelasticsearch/commons/notifications/model/FilterConfigTests.kt:124-145 | Construction fails with `InvalidArgument` exactly when the id or the name is empty, whatever the other fields are. Otherwise it keeps all five fields, and `isEnabled` defaults to true. |
| StreamCodec.Write | notifications/src/test/kotlin/com/amazon/opendistroforelasticsearch/commons/notifications/model/FilterConfigTests.kt:28-50 | The stream form is five fields in a fixed order: id, name, description, the type's canonical token, enabled. |
| StreamCodec.Read | notifications/src/test/kotlin/com/amazon/opendistroforelasticsearch/commons/notifications/model/FilterConfigTests.kt:35-48 | A short or mistyped stream fails with `MalformedInput`. A well-formed one is validated like a direct construction. On success each field comes from its position, and the rest of the stream is returned untouched. |
| StreamCodec.RoundTrip | notifications/src/test/kotlin/com/amazon/opendistroforelasticsearch/commons/notifications/model/FilterConfigTests.kt:28-50 | Reading back what was written gives the same record, `isEnabled` true or false. The reader stops exactly where the writer stopped. |
| StreamCodec.RejectsInvalid | notifications/src/test/kotlin/com/amazon/opendistroforelasticsearch/commons/notifications/model/FilterConfigTests.kt:124-145 | The stream reader re-runs validation: a record with an empty id or name fails with `InvalidArgument`. |
| JsonCodec.ToJson | notifications/src/test/kotlin/com/amazon/opendistroforelasticsearch/commons/notifications/model/FilterConfigTests.kt:60 | The JSON form is an object of five members with distinct, recognised keys, and `configType` holds the type's canonical token. |
| JsonCodec.Finish | notifications/src/test/kotlin/com/amazon/opendistroforelasticsearch/commons/notifications/model/FilterConfigTests.kt:124-145 | The extracted fields give a record exactly when the id and the name are both present and non-empty, and that record is built from the extracted fields. Otherwise the result is `InvalidArgument`. |
| JsonCodec.Parse | notifications/src/test/kotlin/com/amazon/opendistroforelasticsearch/commons/notifications/model/FilterConfigTests.kt:61 | A value that is not an object fails with `MalformedInput`. Every record parsed successfully is valid. |
| JsonCodec.ReadMembersByKey | notifications/src/test/kotlin/com/amazon/opendistroforelasticsearch/commons/notifications/model/FilterConfigTests.kt:87-99 | The member-by-member reader fails exactly when some member holds the wrong kind of value. Otherwise each field takes the value of the last member naming it. |
| JsonCodec.ParseByKey | notifications/src/test/kotlin/com/amazon/opendistroforelasticsearch/commons/notifications/model/FilterConfigTests.kt:87-99 | The object reader, stated by key rather than by position. |
| JsonCodec.RoundTrip | notifications/src/test/kotlin/com/amazon/opendistroforelasticsearch/commons/notifications/model/FilterConfigTests.kt:53-77 | Any valid record written as JSON parses back to itself, `isEnabled` true or false. |
| JsonCodec.IgnoresUnknownMembers | notifications/src/test/kotlin/com/amazon/opendistroforelasticsearch/commons/notifications/model/FilterConfigTests.kt:80-101 | An object parses exactly like the object of its recognised members alone, whatever shape the other members' values have. |
| JsonCodec.InsertUnknownMember | notifications/src/test/kotlin/com/amazon/opendistroforelasticsearch/commons/notifications/model/FilterConfigTests.kt:80-101 | Inserting a member with an unknown key anywhere in an object does not change the result. |
| JsonCodec.AppendUnknownMembers | notifications/src/test/kotlin/com/amazon/opendistroforelasticsearch/commons/notifications/model/FilterConfigTests.kt:93-96 | Appending any number of members with unknown keys does not change the result. |
| JsonCodec.OrderIrrelevant | notifications/src/test/kotlin/com/amazon/opendistroforelasticsearch/commons/notifications/model/FilterConfigTests.kt:87-98 | With no repeated key, two objects holding the same members in different orders parse alike. |
| JsonCodec.DefaultEnabled | notifications/src/test/kotlin/com/amazon/opendistroforelasticsearch/commons/notifications/model/FilterConfigTests.kt:111-118 | An object with no `isEnabled` member parses, when it parses at all, to an enabled record. |
| JsonCodec.UnknownTypeFallback | notifications/src/test/kotlin/com/amazon/opendistroforelasticsearch/commons/notifications/model/FilterConfigTests.kt:104-121 | An unregistered `configType` token does not fail the parse: the object parses exactly as it would with the token "None" in its place, so nothing but the type is affected, and a successful parse holds `NoneType`. |
| JsonCodec.RequiredFields | notifications/src/test/kotlin/com/amazon/opendistroforelasticsearch/commons/notifications/model/FilterConfigTests.kt:124-145 | A well-typed object parses exactly when it carries a non-empty id and a non-empty name. Otherwise it fails with `InvalidArgument`, as direct construction does. |
| JsonCodec.ExtraMembersDocument | notifications/src/test/kotlin/com/amazon/opendistroforelasticsearch/commons/notifications/model/FilterConfigTests.kt:80-101 | The Email document with three extra members (an array, a nested object, a string) parses to the enabled Email record. |
| JsonCodec.UnknownTypeDocument | notifications/src/test/kotlin/com/amazon/opendistroforelasticsearch/commons/notifications/model/FilterConfigTests.kt:104-121 | The document naming "NewConfig" with no `isEnabled` parses to an enabled `NoneType` record. |

## Left out

- The `FeatureConfig` implementation is not part of this model. The model is built from what the tests assert, so any behaviour beyond them (listed above) is a chosen reading, not a transcription.
- `recreateObject`, `getJsonString` and `createObjectFromJsonString`, and the Elasticsearch `StreamInput`/`StreamOutput` and XContent libraries behind them, are not part of this model. The stream is an abstract sequence of typed fields, and JSON is an already-tokenised value tree.
- JSON text lexing, whitespace and `trimIndent`: these belong to the text library, not to the record's contract.
- JSON numbers are plain integers and are never interpreted. Under an unknown key they are skipped like any other value; under a recognised key they are the wrong kind of value, and `Parse` fails with `MalformedInput`.
- The JUnit / `ESTestCase` harness and `Assertions.assertThrows`. A thrown exception is a `Failure` result. Error messages are not modelled, only the error kind.
- The rest of `NotificationConfig`, and anything about storing, indexing or routing configs.
