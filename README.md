# CAR structural validator, modelled in Dafny

This project models `validateCAR` from `validate-car.js`. It is the basic
structural check for a CAR (Compliance/Certification Audit Record) JSON
document. The function takes an already-parsed JSON value and returns an
ordered list of violation messages. Three rule groups always run, in this
order:

1. **Required keys.** There is one `Missing required field: <name>` for each
   of the 12 fixed top-level keys the document lacks. Presence means the key
   exists (the JavaScript `in` operator), so a key whose value is `null`,
   `false`, `""` or `[]` counts as present.
2. **Process proof.** This group runs when `proof` is truthy and
   `proof.match_kind === "process"`. It is an if / else-if chain over
   `proof.process`, `proof.process.sequential_checkpoints` and that value's
   `length === 0`, so it reports at most one message.
3. **Step naming.** This group looks only at `run.steps[0]`. It reports one
   combined camelCase message if that step has a `run_id`, `order_index` or
   `checkpoint_type` key.

The project has three files:

- `js_value.dfy` (module `JsValue`): the parsed JSON value, with JavaScript's
  `undefined` as `None`. It also holds the JavaScript semantics the validator
  relies on: truthiness, named property access, `x[0]`, and the `in`
  operator. `in` throws a TypeError when its right operand is a primitive.
- `validate_car.dfy` (module `CarValidator`): the functional specification
  `Validate`, built from one function per rule group. It also holds the
  imperative `ValidateCar`, which appends to an `errors` sequence inside a
  loop over the required list, as the source does. `ValidateCar` is proved to
  return exactly `Validate(doc)`.
- `validate_car_properties.dfy` (module `CarValidatorProperties`): lemmas
  about `Validate`. They cover counts, ordering, mutual exclusion, what the
  naming rule depends on, and the exact result for well-formed documents.

`ValidateCar`'s postcondition ties its result to the pure function `Validate`.
So two calls on the same document return the same list, and the model has no
side effects.

Three behaviours of the code are worth stating, because they are easy to
overlook when reading the rules above:

- The process group is guarded by truthiness (line 45): a `proof` of `0`,
  `""`, `false` or `null` is present but skips the group.
- The naming check is guarded by the truthiness of `run.steps[0]` (line 60):
  a first step of `null` or `0` skips it.
- validateCAR can throw. If the document is `null`, a number, a string or a
  boolean, `field in carJson` (line 39) throws. If `run.steps[0]` is a truthy
  primitive, `'run_id' in step` (line 61) throws. This happens, for example,
  when `run.steps` is a non-empty string, whose first character is then a
  one-character string. The model returns `Throw(InOperatorOnPrimitive(key))`
  in these cases.

## Model

| member | source | states |
|---|---|---|
| `JsValue.In` | validate-car.js:39 | `key in v` throws exactly when `v` is a primitive; otherwise it is true exactly when `key` is one of `v`'s keys. |
| `CarValidator.MissingMessages` | validate-car.js:38-42 | The required-key loop as a function: at most one message per listed name (the result is no longer than the list of names). What it returns in full is proved by `MissingMessagesInFieldOrder`, `MissingMessagesMembership` and `MissingMessageCount`. |
| `CarValidator.FirstStep` | validate-car.js:58-59 | `run.steps[0]` is looked at only when `run` and `run.steps` are both truthy; for an array `steps` it is the first element, or `undefined` for an empty array. |
| `JsValue.InAny` | validate-car.js:61 | The short-circuit chain `a in v`, then `b in v`, … throws, naming the first key, when `v` is a primitive. Otherwise it returns true exactly when one of the names is a key of `v`. |
| `CarValidator.ProcessProofCheck` | validate-car.js:45-55 | The process group yields at most one message, always one of its three messages, and only when `proof` is truthy and `match_kind` is `"process"`. |
| `CarValidator.NamingCheck` | validate-car.js:58-65 | It throws exactly when `run.steps[0]` is a truthy primitive. Otherwise it yields no message or the single camelCase message. It yields that message exactly when the first step is truthy and has one of the snake_case keys. |
| `CarValidator.Validate` | validate-car.js:28-68 | validateCAR throws exactly when the document is not an array or object, or when `run.steps[0]` is a truthy primitive. |
| `CarValidator.ValidateCar` | validate-car.js:28-68 | The in-place loop and conditionals return exactly `Validate(carJson)`: the same violations in the same order, or the same TypeError. The result is deterministic. |
| `CarValidatorProperties.RequiredFieldsDistinct` | validate-car.js:29-33 | The 12 required names are pairwise distinct. |
| `CarValidatorProperties.MissingMessagesMembership` | validate-car.js:38-42 | A name's missing-field message appears exactly when the name is in the list and absent from the key set. |
| `CarValidatorProperties.MissingMessagesInFieldOrder` | validate-car.js:38-42 | The missing-field messages correspond one-to-one to the positions of the absent names, in increasing list order. |
| `CarValidatorProperties.MissingMessageCount` | validate-car.js:38-42 | With distinct names, each absent name is reported exactly once and each present name zero times. |
| `CarValidatorProperties.NothingMissingWhenAllPresent` | validate-car.js:38-42 | When every listed name is a key, the required-key group reports nothing. |
| `CarValidatorProperties.OneMessagePerMissingField` | validate-car.js:29-42 | In the full result, `Missing required field: f` occurs once if `f` is a required key the document lacks, and zero times otherwise. |
| `CarValidatorProperties.PresentKeyNeverMissing` | validate-car.js:39 | A key present in the document, whatever its value (`null`, `false`, `""`, `[]`), is never reported missing. |
| `CarValidatorProperties.ViolationsInRuleOrder` | validate-car.js:35-67 | The result has at most 14 entries. Missing-field messages come first, then any process-proof message, then any naming message. An entry belongs to the first group exactly when it has the missing-field prefix. |
| `CarValidatorProperties.AtMostOneMessagePerLaterGroup` | validate-car.js:45-65 | The result never holds two process-proof messages or two naming messages. |
| `CarValidatorProperties.NoProcessMessageUnlessProcessKind` | validate-car.js:45-46 | If `proof` is falsy, or `match_kind` is anything but the string `"process"`, none of the three process-proof messages appears. |
| `CarValidatorProperties.ProcessChainFirstFailingLink` | validate-car.js:47-53 | For a process-kind proof, each of the three messages appears exactly when its link is the first one to fail: `process` falsy; `sequential_checkpoints` falsy; `length === 0`. |
| `CarValidatorProperties.CheckpointArrayDecidesProcessGroup` | validate-car.js:49-52 | With a truthy `proof.process` and an array `sequential_checkpoints`, the process-proof messages in the result are exactly {at-least-1-checkpoint} for an empty array and none for a non-empty one. |
| `CarValidatorProperties.NamingMessageIffSnakeCaseFirstStep` | validate-car.js:58-65 | The naming message appears exactly when `run.steps[0]` is truthy and has a `run_id`, `order_index` or `checkpoint_type` key. It appears at most once. |
| `CarValidatorProperties.CamelCaseFirstStepPasses` | validate-car.js:61-62 | If the first step is an object without any of the snake_case keys (for example one keyed `runId`, `orderIndex`, `checkpointType`), validation does not throw and reports no naming message. |
| `CarValidatorProperties.LaterStepsIgnored` | validate-car.js:58-59 | Replacing the steps after the first never changes the result. |
| `CarValidatorProperties.StringStepsThrow` | validate-car.js:59-61 | If `run` is `{"steps": s}` for a non-empty string `s`, validation throws on `'run_id' in step`. |
| `CarValidatorProperties.CompleteDocumentPasses` | validate-car.js:28-68 | A document with all 12 keys, no process-kind proof and no truthy `run.steps[0]` (including `run.steps` missing or falsy, or a first step of `null` or `0`) gives the empty list. |
| `CarValidatorProperties.ProcessObjectMissingReported` | validate-car.js:47-48 | A complete document whose process-kind proof has no truthy `process` gives exactly the process-missing message. |
| `CarValidatorProperties.EmptyCheckpointsReported` | validate-car.js:51-52 | A complete document whose process-kind proof has `sequential_checkpoints: []` gives exactly the at-least-1-checkpoint message. |

## Left out

- The command-line driver (validate-car.js:20-25 and 70-108) is not modelled. It covers argument checking, refusing `.zip` input, reading the file, `JSON.parse`, printing the summary or the numbered errors, exit codes, and the `try/catch` that turns a thrown TypeError into an error exit. The model starts from a parsed value and reports a throw as `Throw(...)`.
- JSON numbers are integers. The validator only compares numbers with zero (truthiness and `length === 0`), so fractions do not change any outcome.
- Properties inherited from `Object.prototype`, `Array.prototype` and `String.prototype` are not modelled. Array index keys are not modelled as `in` keys either. No key the validator tests with `in`, and no named property it reads, is an inherited name; the one index it reads, `steps[0]` at line 59, is modelled by `Index0`.
- A string's `length` and `s[0]` are modelled per character, not per UTF-16 code unit. This only affects strings that are already truthy. For those, `length` is non-zero and `s[0]` is a truthy string either way.
- The TypeError is recorded with the key being tested. The message text JavaScript builds around it is not modelled.
