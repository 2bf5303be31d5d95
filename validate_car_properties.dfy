/**
 What validateCAR promises about its list of violations: one message per
 absent required key in list order, presence as key existence, an
 at-most-one process-proof message, a naming message that depends on the
 first step only, the fixed order of the three rule groups, and when it
 throws.
 */
module CarValidatorProperties {
  import opened JsValue
  import opened CarValidator

  predicate Distinct(s: seq<string>) {
    forall i, j :: 0 <= i < j < |s| ==> s[i] != s[j]
  }

  /** `pos` lists, in increasing order, exactly the positions of `fields`
      whose name is absent from `keys`, and `r` has one message per position. */
  predicate SelectsAbsentInOrder(r: seq<string>, fields: seq<string>, keys: set<string>, pos: seq<int>) {
    && |pos| == |r|
    && (forall k :: 0 <= k < |pos| ==>
          0 <= pos[k] < |fields| && fields[pos[k]] !in keys && r[k] == MissingFieldMessage(fields[pos[k]]))
    && (forall k, l :: 0 <= k < l < |pos| ==> pos[k] < pos[l])
    && (forall p :: 0 <= p < |fields| && fields[p] !in keys ==> p in pos)
  }

  /** Which rule group a message belongs to: 0 for missing fields, 1 for the
      process-proof chain, 2 for the naming rule. */
  function Group(msg: string): nat {
    if msg in ProcessMessages then 1 else if msg == SnakeCaseSteps then 2 else 0
  }

  lemma MissingFieldMessageInjective(f: string, g: string)
    ensures MissingFieldMessage(f) == MissingFieldMessage(g) ==> f == g
  {
    if MissingFieldMessage(f) == MissingFieldMessage(g) {
      assert f == MissingFieldMessage(f)[|MissingFieldPrefix|..];
      assert g == MissingFieldMessage(g)[|MissingFieldPrefix|..];
    }
  }

  /** A missing-field message is never a process-proof or naming message. */
  lemma MissingFieldMessageGroup(f: string)
    ensures Group(MissingFieldMessage(f)) == 0
  {
    assert MissingFieldMessage(f)[0] == 'M';
    assert ProcessMissing[0] == 'm';
    assert CheckpointsRequired[0] == 'p' && CheckpointsEmpty[0] == 'p';
    assert SnakeCaseSteps[0] == 'r';
  }

  /** Only the missing-field messages carry the missing-field prefix, and the
      naming message is not a process-proof message. */
  lemma MessageGroupsDistinct()
    ensures forall m :: m in ProcessMessages ==> !(MissingFieldPrefix <= m)
    ensures !(MissingFieldPrefix <= SnakeCaseSteps)
    ensures SnakeCaseSteps !in ProcessMessages
  {
    assert ProcessMissing[0] == 'm';
    assert CheckpointsRequired[0] == 'p' && CheckpointsEmpty[0] == 'p';
    assert SnakeCaseSteps[0] == 'r';
  }

  lemma RequiredFieldsDistinct()
    ensures Distinct(RequiredFields)
  {
  }

  /** A required name yields a message exactly when it is absent from the
      key set. */
  lemma {:induction false} MissingMessagesMembership(fields: seq<string>, keys: set<string>)
    ensures forall f :: MissingFieldMessage(f) in MissingMessages(fields, keys) <==> f in fields && f !in keys
  {
    if fields != [] {
      var init, last := fields[..|fields| - 1], fields[|fields| - 1];
      assert fields == init + [last];
      MissingMessagesMembership(init, keys);
      forall f ensures MissingFieldMessage(f) in MissingMessages(fields, keys) <==> f in fields && f !in keys {
        MissingFieldMessageInjective(f, last);
      }
    }
  }

  /** Appending one more name to the list extends a selection of the
      absent ones. */
  lemma SelectionExtends(r0: seq<string>, init: seq<string>, keys: set<string>, pos: seq<int>, last: string)
    requires SelectsAbsentInOrder(r0, init, keys, pos)
    ensures last in keys ==> SelectsAbsentInOrder(r0, init + [last], keys, pos)
    ensures last !in keys ==>
              SelectsAbsentInOrder(r0 + [MissingFieldMessage(last)], init + [last], keys, pos + [|init|])
  {
  }


  /** The missing-field messages are those of the absent names, in the
      order of the required list. */
  lemma {:induction false} MissingMessagesInFieldOrder(fields: seq<string>, keys: set<string>)
    ensures exists pos :: SelectsAbsentInOrder(MissingMessages(fields, keys), fields, keys, pos)
  {
    if fields == [] {
      assert SelectsAbsentInOrder(MissingMessages(fields, keys), fields, keys, []);
    } else {
      var n := |fields| - 1;
      var init, last := fields[..n], fields[n];
      assert fields == init + [last];
      MissingMessagesInFieldOrder(init, keys);
      var pos :| SelectsAbsentInOrder(MissingMessages(init, keys), init, keys, pos);
      var r0 := MissingMessages(init, keys);
      SelectionExtends(r0, init, keys, pos, last);
      if last in keys {
        assert SelectsAbsentInOrder(MissingMessages(fields, keys), fields, keys, pos);
      } else {
        assert MissingMessages(fields, keys) == r0 + [MissingFieldMessage(last)];
        assert SelectsAbsentInOrder(MissingMessages(fields, keys), fields, keys, pos + [n]);
      }
    }
  }

  /** With distinct names, each absent name is reported exactly once and a
      present one never. */
  lemma {:induction false} MissingMessageCount(fields: seq<string>, keys: set<string>, f: string)
    requires Distinct(fields)
    ensures multiset(MissingMessages(fields, keys))[MissingFieldMessage(f)] == if f in fields && f !in keys then 1 else 0
  {
    if fields != [] {
      var init, last := fields[..|fields| - 1], fields[|fields| - 1];
      assert fields == init + [last];
      MissingMessageCount(init, keys, f);
      MissingFieldMessageInjective(last, f);
    }
  }

  /** Every message of the missing-field part carries the missing-field
      prefix, and there is one per required name at most. */
  lemma MissingPartShape(keys: set<string>)
    ensures |MissingMessages(RequiredFields, keys)| <= |RequiredFields|
    ensures forall m :: m in MissingMessages(RequiredFields, keys) ==> MissingFieldPrefix <= m && Group(m) == 0
  {
    MissingMessagesInFieldOrder(RequiredFields, keys);
    var r := MissingMessages(RequiredFields, keys);
    var pos :| SelectsAbsentInOrder(r, RequiredFields, keys, pos);
    forall m | m in r ensures MissingFieldPrefix <= m && Group(m) == 0 {
      var k :| 0 <= k < |r| && r[k] == m;
      MissingFieldMessageGroup(RequiredFields[pos[k]]);
    }
  }

  /** validateCAR reports each required key that the document lacks exactly
      once, and nothing for a key it has. */
  lemma OneMessagePerMissingField(doc: Json, f: string)
    requires Validate(doc).Ok?
    ensures multiset(Validate(doc).value)[MissingFieldMessage(f)] ==
            if f in RequiredFields && f !in KeysOf(doc) then 1 else 0
  {
    RequiredFieldsDistinct();
    MissingMessageCount(RequiredFields, KeysOf(doc), f);
    MissingFieldMessageGroup(f);
    MessageGroupsDistinct();
    var naming := NamingCheck(doc).value;
    assert Validate(doc).value == MissingMessages(RequiredFields, KeysOf(doc)) + ProcessProofCheck(doc) + naming;
    assert MissingFieldMessage(f) !in ProcessProofCheck(doc);
    assert MissingFieldMessage(f) !in naming;
  }

  /** Presence is key existence: a key mapped to any value, `null`, `false`,
      `""` and `[]` included, is never reported missing. */
  lemma PresentKeyNeverMissing(fields: map<string, Json>, f: string)
    requires f in fields
    requires Validate(Obj(fields)).Ok?
    ensures MissingFieldMessage(f) !in Validate(Obj(fields)).value
  {
    OneMessagePerMissingField(Obj(fields), f);
  }

  /** The violations come grouped in rule order: missing fields (in list
      order), then at most one process-proof message, then at most one
      naming message; so there are at most 14 of them. */
  lemma ViolationsInRuleOrder(doc: Json)
    requires Validate(doc).Ok?
    ensures |Validate(doc).value| <= |RequiredFields| + 2
    ensures forall i :: 0 <= i < |Validate(doc).value| ==>
              (Group(Validate(doc).value[i]) == 0 <==> MissingFieldPrefix <= Validate(doc).value[i])
    ensures forall i, j :: 0 <= i < j < |Validate(doc).value| ==>
              Group(Validate(doc).value[i]) < Group(Validate(doc).value[j]) ||
              Group(Validate(doc).value[i]) == Group(Validate(doc).value[j]) == 0
  {
    var missing, process, naming := MissingMessages(RequiredFields, KeysOf(doc)), ProcessProofCheck(doc), NamingCheck(doc).value;
    var r := Validate(doc).value;
    assert r == missing + process + naming;
    MissingPartShape(KeysOf(doc));
    MessageGroupsDistinct();
    forall i | 0 <= i < |r|
      ensures Group(r[i]) == (if i < |missing| then 0 else if i < |missing| + |process| then 1 else 2)
      ensures Group(r[i]) == 0 <==> MissingFieldPrefix <= r[i]
    {
      if i < |missing| {
        assert r[i] in missing;
      } else if i < |missing| + |process| {
        assert r[i] == process[i - |missing|];
      } else {
        assert r[i] == naming[i - |missing| - |process|];
      }
    }
  }

  /** At most one process-proof message, and at most one naming message. */
  lemma AtMostOneMessagePerLaterGroup(doc: Json)
    requires Validate(doc).Ok?
    ensures forall i, j :: 0 <= i < j < |Validate(doc).value| ==>
              !(Validate(doc).value[i] in ProcessMessages && Validate(doc).value[j] in ProcessMessages)
    ensures forall i, j :: 0 <= i < j < |Validate(doc).value| ==>
              !(Validate(doc).value[i] == SnakeCaseSteps && Validate(doc).value[j] == SnakeCaseSteps)
  {
    ViolationsInRuleOrder(doc);
    MessageGroupsDistinct();
  }

  /** The process-proof rule group is silent unless `proof` is truthy and
      `proof.match_kind` is the string "process". */
  lemma NoProcessMessageUnlessProcessKind(doc: Json)
    requires Validate(doc).Ok?
    requires !IsProcessProof(doc)
    ensures forall m :: m in Validate(doc).value ==> m !in ProcessMessages
  {
    var r := Validate(doc).value;
    var naming := NamingCheck(doc).value;
    assert r == MissingMessages(RequiredFields, KeysOf(doc)) + ProcessProofCheck(doc) + naming;
    MissingPartShape(KeysOf(doc));
    MessageGroupsDistinct();
  }

  /** `proof.process` of a process-kind proof. */
  function ProofProcess(doc: Json): Option<Json>
    requires !doc.Null? && IsProcessProof(doc)
  {
    Prop(Prop(doc, "proof").value, "process")
  }

  /** `proof.process.sequential_checkpoints` once `proof.process` is truthy. */
  function SequentialCheckpoints(doc: Json): Option<Json>
    requires !doc.Null? && IsProcessProof(doc) && Truthy(ProofProcess(doc))
  {
    Prop(ProofProcess(doc).value, "sequential_checkpoints")
  }

  /** For a process-kind proof, the message reported is the one for the first
      failing link of the chain `proof.process`, `.sequential_checkpoints`,
      `.length === 0`. */
  lemma ProcessChainFirstFailingLink(doc: Json)
    requires Validate(doc).Ok? && IsProcessProof(doc)
    ensures ProcessMissing in Validate(doc).value <==> !Truthy(ProofProcess(doc))
    ensures CheckpointsRequired in Validate(doc).value <==>
              Truthy(ProofProcess(doc)) && !Truthy(SequentialCheckpoints(doc))
    ensures CheckpointsEmpty in Validate(doc).value <==>
              Truthy(ProofProcess(doc)) && Truthy(SequentialCheckpoints(doc)) &&
              Prop(SequentialCheckpoints(doc).value, "length") == Some(Num(0))
  {
    var r := Validate(doc).value;
    var naming := NamingCheck(doc).value;
    assert r == MissingMessages(RequiredFields, KeysOf(doc)) + ProcessProofCheck(doc) + naming;
    MissingPartShape(KeysOf(doc));
    MessageGroupsDistinct();
  }

  /** With a truthy `proof.process` whose `sequential_checkpoints` is an
      array, the array decides the group: the at-least-one message when it is
      empty, nothing otherwise. */
  lemma CheckpointArrayDecidesProcessGroup(doc: Json, checkpoints: seq<Json>)
    requires Validate(doc).Ok? && IsProcessProof(doc) && Truthy(ProofProcess(doc))
    requires SequentialCheckpoints(doc) == Some(Arr(checkpoints))
    ensures (set m | m in Validate(doc).value && m in ProcessMessages) ==
            if checkpoints == [] then {CheckpointsEmpty} else {}
  {
    var r := Validate(doc).value;
    var naming := NamingCheck(doc).value;
    assert r == MissingMessages(RequiredFields, KeysOf(doc)) + ProcessProofCheck(doc) + naming;
    MissingPartShape(KeysOf(doc));
    MessageGroupsDistinct();
  }

  /** The naming message is reported exactly when the first step is truthy and
      has a snake_case key; it appears once however many such keys there are. */
  lemma NamingMessageIffSnakeCaseFirstStep(doc: Json)
    requires Validate(doc).Ok?
    ensures SnakeCaseSteps in Validate(doc).value <==>
              Truthy(FirstStep(doc)) && exists k :: k in SnakeCaseStepKeys && k in KeysOf(FirstStep(doc).value)
    ensures multiset(Validate(doc).value)[SnakeCaseSteps] <= 1
  {
    var r := Validate(doc).value;
    var missing, process, naming := MissingMessages(RequiredFields, KeysOf(doc)), ProcessProofCheck(doc), NamingCheck(doc).value;
    assert r == missing + process + naming;
    MissingPartShape(KeysOf(doc));
    MessageGroupsDistinct();
    assert SnakeCaseSteps !in missing;
    assert SnakeCaseSteps !in process;
    assert multiset(missing)[SnakeCaseSteps] == 0;
    assert multiset(process)[SnakeCaseSteps] == 0;
  }

  /** A first step keyed in camelCase (`runId`, `orderIndex`,
      `checkpointType`, or any keys other than the snake_case three) passes
      the naming rule. */
  lemma CamelCaseFirstStepPasses(doc: Json, step: map<string, Json>)
    requires doc.Obj? && FirstStep(doc) == Some(Obj(step))
    requires forall k :: k in SnakeCaseStepKeys ==> k !in step
    ensures Validate(doc).Ok? && SnakeCaseSteps !in Validate(doc).value
  {
    NamingMessageIffSnakeCaseFirstStep(doc);
  }

  /** Only `run.steps[0]` is inspected: steps after the first never change
      the result. */
  lemma LaterStepsIgnored(doc: map<string, Json>, run: map<string, Json>, first: Json, rest: seq<Json>, rest': seq<Json>)
    ensures Validate(Obj(doc["run" := Obj(run["steps" := Arr([first] + rest)])])) ==
            Validate(Obj(doc["run" := Obj(run["steps" := Arr([first] + rest')])]))
  {
    var d1 := Obj(doc["run" := Obj(run["steps" := Arr([first] + rest)])]);
    var d2 := Obj(doc["run" := Obj(run["steps" := Arr([first] + rest')])]);
    assert KeysOf(d1) == KeysOf(d2);
    assert Prop(d1, "proof") == Prop(d2, "proof");
    assert ProcessProofCheck(d1) == ProcessProofCheck(d2);
    assert FirstStep(d1) == FirstStep(d2) == Some(first);
  }

  /** A non-empty string as `run.steps` makes `steps[0]` a one-character
      string, and `'run_id' in step` then throws. */
  lemma StringStepsThrow(doc: map<string, Json>, steps: string)
    requires steps != []
    ensures Validate(Obj(doc["run" := Obj(map["steps" := Str(steps)])])) == Throw(InOperatorOnPrimitive("run_id"))
  {
  }


  /** No message at all when every name is among the keys. */
  lemma {:induction false} NothingMissingWhenAllPresent(fields: seq<string>, keys: set<string>)
    requires forall f :: f in fields ==> f in keys
    ensures MissingMessages(fields, keys) == []
  {
    if fields != [] {
      NothingMissingWhenAllPresent(fields[..|fields| - 1], keys);
    }
  }

  /** A document with every required key, no process-kind proof and no truthy
      `run.steps[0]` (no truthy `run`, no truthy `run.steps`, or a falsy first
      step such as `null` or `0`) passes. */
  lemma CompleteDocumentPasses(doc: map<string, Json>)
    requires forall f :: f in RequiredFields ==> f in doc
    requires !IsProcessProof(Obj(doc))
    requires !Truthy(FirstStep(Obj(doc)))
    ensures Validate(Obj(doc)) == Ok([])
  {
    NothingMissingWhenAllPresent(RequiredFields, doc.Keys);
  }

  /** A complete document whose process-kind proof lacks a truthy
      `proof.process` gets exactly the process-missing message. */
  lemma ProcessObjectMissingReported(doc: map<string, Json>)
    requires forall f :: f in RequiredFields ==> f in doc
    requires IsProcessProof(Obj(doc)) && !Truthy(ProofProcess(Obj(doc)))
    requires !Truthy(FirstStep(Obj(doc)))
    ensures Validate(Obj(doc)) == Ok([ProcessMissing])
  {
    NothingMissingWhenAllPresent(RequiredFields, doc.Keys);
    assert ProcessProofCheck(Obj(doc)) == [ProcessMissing];
    assert NamingCheck(Obj(doc)) == Ok([]);
    assert [] + [ProcessMissing] + [] == [ProcessMissing];
  }

  /** A complete document whose process-kind proof has an empty
      `sequential_checkpoints` array gets exactly the at-least-one message. */
  lemma EmptyCheckpointsReported(doc: map<string, Json>)
    requires forall f :: f in RequiredFields ==> f in doc
    requires IsProcessProof(Obj(doc)) && Truthy(ProofProcess(Obj(doc)))
    requires SequentialCheckpoints(Obj(doc)) == Some(Arr([]))
    requires !Truthy(FirstStep(Obj(doc)))
    ensures Validate(Obj(doc)) == Ok([CheckpointsEmpty])
  {
    NothingMissingWhenAllPresent(RequiredFields, doc.Keys);
    assert ProcessProofCheck(Obj(doc)) == [CheckpointsEmpty];
    assert NamingCheck(Obj(doc)) == Ok([]);
    assert [] + [CheckpointsEmpty] + [] == [CheckpointsEmpty];
  }
}
