/**
 The structural check of a CAR (audit record) document: the functional
 specification `Validate`, rule group by rule group, and the method
 `ValidateCar` that builds the list of violations step by step as
 validate-car.js does, proved to return what `Validate` says.
 */
module CarValidator {
  import opened JsValue

  /** The top-level keys every CAR document must have, in reporting order. */
  const RequiredFields: seq<string> := [
    "id", "run_id", "created_at", "run", "proof", "policy_ref",
    "budgets", "provenance", "checkpoints", "sgrade",
    "signer_public_key", "signatures"
  ]

  /** Keys that betray snake_case naming in a step record. */
  const SnakeCaseStepKeys: seq<string> := ["run_id", "order_index", "checkpoint_type"]

  // The messages are written in two pieces so that the verifier can see
  // their first characters, which MissingFieldMessageGroup and
  // MessageGroupsDistinct use to tell the rule groups' messages apart.
  const ProcessMissing := "match_kind is " + "\"process\" but proof.process is missing"
  const CheckpointsRequired := "proof.process." + "sequential_checkpoints is required"
  const CheckpointsEmpty := "proof.process." + "sequential_checkpoints must have at least 1 checkpoint"
  const SnakeCaseSteps := "run.steps " + "should use camelCase (runId, orderIndex, checkpointType), not snake_case"

  /** The three messages of the process-proof rule group. */
  const ProcessMessages: set<string> := {ProcessMissing, CheckpointsRequired, CheckpointsEmpty}

  const MissingFieldPrefix := "Missing required field: "

  function MissingFieldMessage(field: string): string {
    MissingFieldPrefix + field
  }

  /** One message per name of `fields` that is not in `keys`, kept in the
      order of `fields`. */
  function MissingMessages(fields: seq<string>, keys: set<string>): (r: seq<string>)
    ensures |r| <= |fields|
  {
    if fields == [] then []
    else
      var last := fields[|fields| - 1];
      MissingMessages(fields[..|fields| - 1], keys) + (if last in keys then [] else [MissingFieldMessage(last)])
  }

  /** `proof` is truthy and `proof.match_kind === 'process'`: the condition
      under which the process-proof group runs. */
  predicate IsProcessProof(doc: Json)
    requires !doc.Null?
  {
    var proof := Prop(doc, "proof");
    Truthy(proof) && Prop(proof.value, "match_kind") == Some(Str("process"))
  }

  /** The process-proof rule group: an if / else-if chain, so at most one
      message. */
  function ProcessProofCheck(doc: Json): (r: seq<string>)
    requires !doc.Null?
    ensures |r| <= 1
    ensures forall m :: m in r ==> m in ProcessMessages
    ensures r != [] ==> IsProcessProof(doc)
  {
    if IsProcessProof(doc) then
      var process := Prop(Prop(doc, "proof").value, "process");
      if !Truthy(process) then [ProcessMissing]
      else
        var checkpoints := Prop(process.value, "sequential_checkpoints");
        if !Truthy(checkpoints) then [CheckpointsRequired]
        else if Prop(checkpoints.value, "length") == Some(Num(0)) then [CheckpointsEmpty]
        else []
    else []
  }

  /** `run.steps[0]` when both `run` and `run.steps` are truthy; the naming
      rule inspects nothing else. */
  function FirstStep(doc: Json): (r: Option<Json>)
    requires !doc.Null?
    ensures r.Some? ==> Truthy(Prop(doc, "run")) && Truthy(Prop(Prop(doc, "run").value, "steps"))
    ensures Truthy(Prop(doc, "run")) && Prop(Prop(doc, "run").value, "steps").Some? &&
            Prop(Prop(doc, "run").value, "steps").value.Arr? ==>
              var steps := Prop(Prop(doc, "run").value, "steps").value.elems;
              r == if steps == [] then None else Some(steps[0])
  {
    var run := Prop(doc, "run");
    if Truthy(run) && Truthy(Prop(run.value, "steps")) then
      Index0(Prop(run.value, "steps").value)
    else None
  }

  /** The naming rule: one combined message when the first step (if truthy)
      has any snake_case key; `in` on a truthy primitive step throws. */
  function NamingCheck(doc: Json): (r: Result<seq<string>>)
    requires !doc.Null?
    ensures r.Throw? <==> Truthy(FirstStep(doc)) && IsPrimitive(FirstStep(doc).value)
    ensures r.Ok? ==> (r.value == [SnakeCaseSteps] || r.value == [])
    ensures r.Ok? ==> (r.value != [] <==>
      Truthy(FirstStep(doc)) && exists k :: k in SnakeCaseStepKeys && k in KeysOf(FirstStep(doc).value))
  {
    var step := FirstStep(doc);
    if Truthy(step) then
      match InAny(SnakeCaseStepKeys, step.value)
      case Throw(e) => Throw(e)
      case Ok(snake) => if snake then Ok([SnakeCaseSteps]) else Ok([])
    else Ok([])
  }

  /** The violations validateCAR returns for `doc`, in the order the rule
      groups run, or the TypeError it throws: it throws exactly when the
      document is not an array or object, or when `run.steps[0]` is a truthy
      primitive. */
  function Validate(doc: Json): (r: Result<seq<string>>)
    ensures r.Throw? <==>
              IsPrimitive(doc) || (Truthy(FirstStep(doc)) && IsPrimitive(FirstStep(doc).value))
  {
    if IsPrimitive(doc) then Throw(InOperatorOnPrimitive(RequiredFields[0]))
    else
      match NamingCheck(doc)
      case Throw(e) => Throw(e)
      case Ok(naming) => Ok(MissingMessages(RequiredFields, KeysOf(doc)) + ProcessProofCheck(doc) + naming)
  }

  /** validateCAR: appends violations to `errors` as it goes. */
  method ValidateCar(carJson: Json) returns (r: Result<seq<string>>)
    ensures r == Validate(carJson)
  {
    var errors: seq<string> := [];

    for i := 0 to |RequiredFields|
      invariant !IsPrimitive(carJson) || i == 0
      invariant errors == MissingMessages(RequiredFields[..i], KeysOf(carJson))
    {
      var field := RequiredFields[i];
      var present := In(field, carJson);
      if present.Throw? {
        return Throw(present.error);
      }
      assert RequiredFields[..i + 1] == RequiredFields[..i] + [field];
      if !present.value {
        errors := errors + [MissingFieldMessage(field)];
      }
    }
    assert RequiredFields[..|RequiredFields|] == RequiredFields;
    ghost var missing := errors;

    var proof := Prop(carJson, "proof");
    if Truthy(proof) {
      if Prop(proof.value, "match_kind") == Some(Str("process")) {
        var process := Prop(proof.value, "process");
        if !Truthy(process) {
          errors := errors + [ProcessMissing];
        } else {
          var checkpoints := Prop(process.value, "sequential_checkpoints");
          if !Truthy(checkpoints) {
            errors := errors + [CheckpointsRequired];
          } else if Prop(checkpoints.value, "length") == Some(Num(0)) {
            errors := errors + [CheckpointsEmpty];
          }
        }
      }
    }

    assert errors == missing + ProcessProofCheck(carJson);
    ghost var checked := errors;

    var run := Prop(carJson, "run");
    if Truthy(run) && Truthy(Prop(run.value, "steps")) {
      var step := Index0(Prop(run.value, "steps").value);
      if Truthy(step) {
        var snake := InAny(SnakeCaseStepKeys, step.value);
        if snake.Throw? {
          return Throw(snake.error);
        }
        if snake.value {
          errors := errors + [SnakeCaseSteps];
        }
      }
    }

    assert errors == checked + NamingCheck(carJson).value;
    return Ok(errors);
  }
}
