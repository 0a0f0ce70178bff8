/** Checking a parameter payload against the descriptors' JSON Schema. The
    schema engine itself is not modelled: it is a parameter that, given a
    schema and a payload, either fails outright or lists the violations it
    found, in its own order. */
module Validation {
  import opened Json
  import opened Variables

  /** What one run of the schema engine yields: an error of its own (an
      unusable schema, say), or the messages of the violations it found. */
  datatype EngineResult =
    | EngineFailure(message: string)
    | Checked(violations: seq<string>)

  /** The error `ValidateVariablesAgainstSchema` returns: the engine's own
      error passed through, or one aggregate holding every violation. */
  datatype ValidationError =
    | EngineError(message: string)
    | Violations(messages: seq<string>)

  /** The error a run of the engine is reported as: the engine's error as it
      is, nothing for a clean run, otherwise every violation message in the
      order the engine gave them. */
  predicate Reports(r: EngineResult, err: Option<ValidationError>)
  {
    match r
    case EngineFailure(message) => err == Some(EngineError(message))
    case Checked(violations) =>
      if violations == [] then err == None else err == Some(Violations(violations))
  }

  /** `ValidateVariablesAgainstSchema`: runs the engine once and appends the
      message of each violation to an aggregate error. */
  method ValidateVariablesAgainstSchema(
    parameters: map<string, JValue>,
    schema: map<string, JValue>,
    engine: (map<string, JValue>, map<string, JValue>) -> EngineResult)
    returns (err: Option<ValidationError>)
    ensures Reports(engine(schema, parameters), err)
    ensures engine(schema, parameters).EngineFailure? ==> err == Some(EngineError(engine(schema, parameters).message))
    ensures err == None <==> engine(schema, parameters) == Checked([])
    ensures err.Some? && err.value.Violations? ==>
              engine(schema, parameters).Checked? && err.value.messages == engine(schema, parameters).violations
  {
    var result := engine(schema, parameters);
    if result.EngineFailure? {
      return Some(EngineError(result.message));
    }
    var resultErrors := result.violations;
    if |resultErrors| == 0 {
      return None;
    }
    var messages := [];
    var i := 0;
    while i < |resultErrors|
      invariant 0 <= i <= |resultErrors|
      invariant messages == resultErrors[..i]
    {
      messages := messages + [resultErrors[i]];
      i := i + 1;
    }
    assert resultErrors[..|resultErrors|] == resultErrors;
    err := Some(Violations(messages));
  }

  /** `ValidateVariables`: builds the schema of the descriptors and checks the
      payload against it. */
  method ValidateVariables(
    parameters: map<string, JValue>,
    variables: seq<BrokerVariable>,
    engine: (map<string, JValue>, map<string, JValue>) -> EngineResult)
    returns (err: Option<ValidationError>)
    ensures exists schema :: IsJsonSchemaOf(variables, schema) && Reports(engine(schema, parameters), err)
  {
    var schema := CreateJsonSchema(variables);
    err := ValidateVariablesAgainstSchema(parameters, schema, engine);
    assert IsJsonSchemaOf(variables, schema) && Reports(engine(schema, parameters), err);
  }
}
