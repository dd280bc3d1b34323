/** The feature config record: identity, validation and construction. */
module FeatureConfigs {
  import opened Wrappers
  import opened ConfigTypes

  /** The two ways construction or decoding can fail. `InvalidArgument` is the
      record's own complaint (an empty or absent id or name); `MalformedInput`
      is the codec layer's (a value of the wrong kind, a truncated stream,
      something that is not an object). */
  datatype Error = InvalidArgument | MalformedInput

  /** A feature config. Equality is structural over all five fields. */
  datatype FeatureConfig = FeatureConfig(
    configId: string,
    name: string,
    description: string,
    configType: ConfigType,
    isEnabled: bool)
  {
    /** What every record the constructor hands out satisfies. */
    predicate Valid() {
      configId != "" && name != ""
    }
  }

  /** The checked constructor. It fails exactly when the id or the name is
      empty; `isEnabled` defaults to true when the caller leaves it out. */
  function Create(configId: string, name: string, description: string,
                  configType: ConfigType, isEnabled: bool := true): (r: Result<FeatureConfig, Error>)
    ensures r.Success? <==> configId != "" && name != ""
    ensures r.Failure? ==> r.error == InvalidArgument
    ensures r.Success? ==> r.value.Valid()
    ensures r.Success? ==> && r.value.configId == configId && r.value.name == name
                           && r.value.description == description
                           && r.value.configType == configType
                           && r.value.isEnabled == isEnabled
  {
    if configId == "" || name == "" then Failure(InvalidArgument)
    else Success(FeatureConfig(configId, name, description, configType, isEnabled))
  }
}
