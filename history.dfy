/** The audit history of apps/history: one History row per field when a
    tracked record is created or deleted, one per changed field when it is
    updated; the signal receivers that route saves and deletes to those
    writers; and the display of stored values. */
module History {
  import opened Common
  import opened Numerals

  // ---------------------------------------------------------------------
  // Records, fields and stored values
  // ---------------------------------------------------------------------

  /** The model class of a record; only the first three are tracked. */
  datatype ModelName = WorkflowTable | TaskTable | AccessTable | OtherTable(name: string)

  /** How a field's value is stored and shown: a foreign key to another
      model, a field with a choices map, or anything else. */
  datatype FieldKind = ForeignKey(target: ModelName) | Choice(choices: map<int, string>) | Plain

  datatype Field = Field(name: string, kind: FieldKind)

  /** An attribute value of a record. */
  datatype Value = NoneValue | Int(i: int) | Text(s: string)

  /** A record: its model, primary key and attribute values. A foreign key
      `f` is read through its `f_id` attribute. */
  datatype Instance = Instance(model: ModelName, pk: Id, attrs: map<string, Value>)

  datatype HistoryAction = CreateAction | UpdateAction | DeleteAction

  /** One History row: which field of which record, its value before and
      after, and the kind of change. */
  datatype HistoryRow = HistoryRow(
    model: ModelName,
    objectId: Id,
    fieldName: string,
    prev: string,
    next: string,
    action: HistoryAction)

  /** Python 2's `str()` of a value: "None", the decimal digits of an int,
      and unicode text encoded with the default ASCII codec, which raises
      UnicodeEncodeError on any character above 127. */
  function Str(v: Value): (r: Result<string>)
    ensures r.Err? <==> v.Text? && !IsAscii(v.s)
    ensures r.Err? ==> r.error == UnicodeEncodeError
    ensures v.Text? && r.Ok? ==> r.value == v.s
    ensures v.Int? ==> r == Ok(IntToString(v.i))
  {
    match v
    case NoneValue => Ok("None")
    case Int(i) => Ok(IntToString(i))
    case Text(s) => if IsAscii(s) then Ok(s) else Err(UnicodeEncodeError)
  }

  /** The attribute a field is read through. */
  function Attname(f: Field): string {
    if f.kind.ForeignKey? then f.name + "_id" else f.name
  }

  ghost predicate DistinctNames(fields: seq<Field>) {
    forall i, j :: 0 <= i < j < |fields| ==> fields[i].name != fields[j].name
  }

  /** The record has every attribute its model's fields are read through. */
  ghost predicate HasAttributes(fields: seq<Field>, inst: Instance) {
    forall i :: 0 <= i < |fields| ==> Attname(fields[i]) in inst.attrs
  }

  /** `_meta.get_field(name)`: the first field with that name. */
  function FindField(fields: seq<Field>, name: string): (r: Option<Field>)
    ensures r.None? <==> forall i :: 0 <= i < |fields| ==> fields[i].name != name
    ensures r.Some? ==> exists i :: 0 <= i < |fields| && fields[i] == r.value && fields[i].name == name
    decreases |fields|
  {
    if fields == [] then None
    else if fields[0].name == name then Some(fields[0])
    else
      assert forall i :: 1 <= i < |fields| ==> fields[1..][i - 1] == fields[i];
      FindField(fields[1..], name)
  }

  /** `get_value`: `str()` of `<field>_id` for a foreign key and of the
      attribute itself otherwise; an unknown field name raises
      FieldDoesNotExist and non-ASCII text raises UnicodeEncodeError. */
  function GetValue(fields: seq<Field>, inst: Instance, name: string): (r: Result<string>)
    requires HasAttributes(fields, inst)
    ensures FindField(fields, name).None? ==> r == Err(FieldDoesNotExist)
    ensures FindField(fields, name).Some? ==>
      var v := inst.attrs[Attname(FindField(fields, name).value)];
      && (r.Err? <==> v.Text? && !IsAscii(v.s))
      && (r.Err? ==> r.error == UnicodeEncodeError)
  {
    match FindField(fields, name)
    case None => Err(FieldDoesNotExist)
    case Some(f) => Str(inst.attrs[Attname(f)])
  }

  /** With distinct names, the value stored for field `i` is `str()` of the
      attribute that field is read through, and it fails exactly when that
      attribute is text with a non-ASCII character. */
  lemma {:induction false} GetValueOfField(fields: seq<Field>, inst: Instance, i: int)
    requires DistinctNames(fields) && HasAttributes(fields, inst) && 0 <= i < |fields|
    ensures GetValue(fields, inst, fields[i].name) == Str(inst.attrs[Attname(fields[i])])
    ensures fields[i].kind.ForeignKey? ==>
      GetValue(fields, inst, fields[i].name) == Str(inst.attrs[fields[i].name + "_id"])
    ensures !fields[i].kind.ForeignKey? ==>
      GetValue(fields, inst, fields[i].name) == Str(inst.attrs[fields[i].name])
    ensures GetValue(fields, inst, fields[i].name).Err? <==>
      inst.attrs[Attname(fields[i])].Text? && !IsAscii(inst.attrs[Attname(fields[i])].s)
  {
    var f := FindField(fields, fields[i].name).value;
    var k :| 0 <= k < |fields| && fields[k] == f && fields[k].name == fields[i].name;
    assert k == i;
  }

  /** `get_value` of field `i` does not raise. */
  predicate Storable(fields: seq<Field>, inst: Instance, i: int)
    requires HasAttributes(fields, inst) && 0 <= i < |fields|
  {
    GetValue(fields, inst, fields[i].name).Ok?
  }

  /** The index of the first field from `from` on whose value cannot be
      stored, or `|fields|` when there is none. */
  function StoredFrom(fields: seq<Field>, inst: Instance, from: nat): (n: nat)
    requires HasAttributes(fields, inst) && from <= |fields|
    ensures from <= n <= |fields|
    ensures forall i :: from <= i < n ==> Storable(fields, inst, i)
    ensures n < |fields| ==> !Storable(fields, inst, n)
    decreases |fields| - from
  {
    if from == |fields| || !Storable(fields, inst, from) then from
    else StoredFrom(fields, inst, from + 1)
  }

  /** How many rows `create_history` and `delete_history` write before
      `get_value` raises: all fields, or those before the first whose value
      `str()` cannot encode. */
  function StoredCount(fields: seq<Field>, inst: Instance): (n: nat)
    requires HasAttributes(fields, inst)
    ensures n <= |fields|
    ensures forall i :: 0 <= i < n ==> Storable(fields, inst, i)
    ensures n < |fields| ==> !Storable(fields, inst, n)
  {
    StoredFrom(fields, inst, 0)
  }

  /** The string `create_history` and `delete_history` store for field `i`. */
  function StoredValue(fields: seq<Field>, inst: Instance, i: int): string
    requires HasAttributes(fields, inst) && 0 <= i < |fields| && Storable(fields, inst, i)
  {
    GetValue(fields, inst, fields[i].name).value
  }

  // ---------------------------------------------------------------------
  // The writers (helpers.py)
  // ---------------------------------------------------------------------

  function CreateRow(fields: seq<Field>, inst: Instance, i: int): HistoryRow
    requires HasAttributes(fields, inst) && 0 <= i < |fields| && Storable(fields, inst, i)
  {
    HistoryRow(inst.model, inst.pk, fields[i].name, "None", StoredValue(fields, inst, i), CreateAction)
  }

  function DeleteRow(fields: seq<Field>, inst: Instance, i: int): HistoryRow
    requires HasAttributes(fields, inst) && 0 <= i < |fields| && Storable(fields, inst, i)
  {
    HistoryRow(inst.model, inst.pk, fields[i].name, StoredValue(fields, inst, i), "None", DeleteAction)
  }

  /** The rows `create_history` writes: one per field, in field order, up to
      the first field whose value raises. */
  function CreateRecords(fields: seq<Field>, inst: Instance): seq<HistoryRow>
    requires HasAttributes(fields, inst)
  {
    seq(StoredCount(fields, inst), i requires 0 <= i < StoredCount(fields, inst) => CreateRow(fields, inst, i))
  }

  /** The rows `delete_history` writes: one per field, in field order, up to
      the first field whose value raises. */
  function DeleteRecords(fields: seq<Field>, inst: Instance): seq<HistoryRow>
    requires HasAttributes(fields, inst)
  {
    seq(StoredCount(fields, inst), i requires 0 <= i < StoredCount(fields, inst) => DeleteRow(fields, inst, i))
  }

  /** Whether `create_history` and `delete_history` finish or raise. */
  function WriteOutcome(fields: seq<Field>, inst: Instance): Outcome
    requires HasAttributes(fields, inst)
  {
    if StoredCount(fields, inst) == |fields| then Pass else Fail(UnicodeEncodeError)
  }

  /** The UPDATE row for one tracked change (field name and old value), or
      what raises first: `str()` of the old value, then `get_value`. */
  function ChangeRow(fields: seq<Field>, inst: Instance, change: (string, Value)): (r: Result<HistoryRow>)
    requires HasAttributes(fields, inst)
    ensures r.Err? <==> Str(change.1).Err? || GetValue(fields, inst, change.0).Err?
    ensures r.Err? && Str(change.1).Err? ==> r.error == UnicodeEncodeError
    ensures r.Err? && Str(change.1).Ok? ==> r.error == GetValue(fields, inst, change.0).error
    ensures r.Ok? ==>
      r.value == HistoryRow(inst.model, inst.pk, change.0, Str(change.1).value,
                            GetValue(fields, inst, change.0).value, UpdateAction)
  {
    match Str(change.1)
    case Err(e) => Err(e)
    case Ok(prev) =>
      match GetValue(fields, inst, change.0)
      case Err(e) => Err(e)
      case Ok(next) => Ok(HistoryRow(inst.model, inst.pk, change.0, prev, next, UpdateAction))
  }

  /** The result of each change, in the tracker's order. */
  function ChangeResults(fields: seq<Field>, inst: Instance, changes: seq<(string, Value)>): (rs: seq<Result<HistoryRow>>)
    requires HasAttributes(fields, inst)
    ensures |rs| == |changes|
    ensures forall k :: 0 <= k < |changes| ==> rs[k] == ChangeRow(fields, inst, changes[k])
  {
    seq(|changes|, k requires 0 <= k < |changes| && HasAttributes(fields, inst) => ChangeRow(fields, inst, changes[k]))
  }

  /** The rows of a run of steps that stops at the first step that raised:
      the rows before it with its error, or every row. */
  function Collect(results: seq<Result<HistoryRow>>): (seq<HistoryRow>, Outcome)
    decreases |results|
  {
    if results == [] then ([], Pass)
    else match results[0]
      case Err(e) => ([], Fail(e))
      case Ok(row) =>
        var rest := Collect(results[1..]);
        ([row] + rest.0, rest.1)
  }

  /** The rows `update_history` writes for the tracker's changes, in the
      tracker's order, up to the first change that raises. */
  function UpdateRows(fields: seq<Field>, inst: Instance, changes: seq<(string, Value)>): (seq<HistoryRow>, Outcome)
    requires HasAttributes(fields, inst)
  {
    Collect(ChangeResults(fields, inst, changes))
  }

  /** `Collect` keeps the rows of a prefix of the steps and, when it stops,
      the step after them is the one that raised. */
  lemma {:induction false} CollectPrefix(results: seq<Result<HistoryRow>>)
    ensures var (rows, out) := Collect(results);
      && |rows| <= |results|
      && (forall i :: 0 <= i < |rows| ==> results[i] == Ok(rows[i]))
      && (out == Pass <==> |rows| == |results|)
      && (out.Fail? ==> results[|rows|] == Err(out.error))
    decreases |results|
  {
    if results != [] {
      var rest := results[1..];
      assert forall i :: 1 <= i < |results| ==> rest[i - 1] == results[i];
      CollectPrefix(rest);
    }
  }

  /** Step `i`, reached after the rows of the steps before it, either raised,
      which ends the rows there with its error, or gives the next row. */
  lemma CollectStep(results: seq<Result<HistoryRow>>, i: nat)
    requires i < |results| && i <= |Collect(results).0|
    ensures var (rows, out) := Collect(results);
      && (results[i].Err? ==> rows[..i] == rows && out == Fail(results[i].error))
      && (results[i].Ok? ==> i < |rows| && rows[..i + 1] == rows[..i] + [results[i].value])
  {
    var rows := Collect(results).0;
    CollectPrefix(results);
    if i < |rows| {
      assert rows[..i + 1] == rows[..i] + [rows[i]];
    } else {
      assert rows[..i] == rows;
    }
  }

  /** A create writes one CREATE row per field in field order, from "None"
      to the stored value, and stops with UnicodeEncodeError at the first
      field whose value is non-ASCII text; a delete writes the mirror image,
      stopping at the same field. */
  lemma CreateDeleteMirror(fields: seq<Field>, inst: Instance)
    requires HasAttributes(fields, inst)
    ensures |CreateRecords(fields, inst)| == |DeleteRecords(fields, inst)| <= |fields|
    ensures WriteOutcome(fields, inst) == Pass <==> |CreateRecords(fields, inst)| == |fields|
    ensures WriteOutcome(fields, inst) == Pass <==> forall i :: 0 <= i < |fields| ==> Storable(fields, inst, i)
    ensures WriteOutcome(fields, inst).Fail? ==>
      && WriteOutcome(fields, inst).error == UnicodeEncodeError
      && !Storable(fields, inst, |CreateRecords(fields, inst)|)
    ensures forall i :: 0 <= i < |CreateRecords(fields, inst)| ==>
      && CreateRecords(fields, inst)[i].fieldName == fields[i].name
      && CreateRecords(fields, inst)[i].prev == "None"
      && CreateRecords(fields, inst)[i].action == CreateAction
      && DeleteRecords(fields, inst)[i] ==
           CreateRecords(fields, inst)[i].(prev := CreateRecords(fields, inst)[i].next, next := "None",
                                            action := DeleteAction)
  {
  }

  /** A task whose title holds a non-ASCII character: creating it writes the
      rows of the fields declared before the title (`id`, then the `workflow`
      foreign key, stored as `workflow_id`) and then raises, so the fields
      after the title are never reached. */
  lemma NonAsciiTitleStops()
    ensures var fields := [Field("id", Plain), Field("workflow", ForeignKey(WorkflowTable)), Field("title", Plain)];
      var inst := Instance(TaskTable, 7, map["id" := Int(7), "workflow_id" := Int(3), "title" := Text("Caf\U{e9}")]);
      && HasAttributes(fields, inst)
      && CreateRecords(fields, inst) ==
           [HistoryRow(TaskTable, 7, "id", "None", "7", CreateAction),
            HistoryRow(TaskTable, 7, "workflow", "None", "3", CreateAction)]
      && WriteOutcome(fields, inst) == Fail(UnicodeEncodeError)
  {
    var fields := [Field("id", Plain), Field("workflow", ForeignKey(WorkflowTable)), Field("title", Plain)];
    var inst := Instance(TaskTable, 7, map["id" := Int(7), "workflow_id" := Int(3), "title" := Text("Caf\U{e9}")]);
    assert HasAttributes(fields, inst) by {
      assert Attname(fields[1]) == "workflow_id";
    }
    assert GetValue(fields, inst, "id") == Ok("7") by {
      assert IntToString(7) == "7";
    }
    assert GetValue(fields, inst, "workflow") == Ok("3") by {
      assert Attname(fields[1]) == "workflow_id";
      assert IntToString(3) == "3";
    }
    assert GetValue(fields, inst, "title").Err? by {
      assert inst.attrs["title"].s[3] as int == 0xe9;
    }
    assert StoredCount(fields, inst) == 2;
  }

  /** An update writes one UPDATE row per change in the tracker's order,
      from `str()` of the old value to the stored current value; it stops at
      the first change whose old value or current value raises, and with
      no changes it writes nothing. */
  lemma UpdateRowsShape(fields: seq<Field>, inst: Instance, changes: seq<(string, Value)>)
    requires HasAttributes(fields, inst)
    ensures var (rows, out) := UpdateRows(fields, inst, changes);
      && |rows| <= |changes|
      && (forall i :: 0 <= i < |rows| ==> ChangeRow(fields, inst, changes[i]) == Ok(rows[i]))
      && (forall r :: r in rows ==> r.action == UpdateAction && r.model == inst.model && r.objectId == inst.pk)
      && (out == Pass <==> |rows| == |changes|)
      && (out == Pass <==> forall i :: 0 <= i < |changes| ==> ChangeRow(fields, inst, changes[i]).Ok?)
      && (out.Fail? ==> ChangeRow(fields, inst, changes[|rows|]) == Err(out.error))
      && (out.Fail? ==> out.error == FieldDoesNotExist || out.error == UnicodeEncodeError)
  {
    UpdateRowsPrefix(fields, inst, changes);
    var (rows, out) := UpdateRows(fields, inst, changes);
    forall r | r in rows
      ensures r.action == UpdateAction && r.model == inst.model && r.objectId == inst.pk
    {
      var i :| 0 <= i < |rows| && rows[i] == r;
      assert ChangeRow(fields, inst, changes[i]) == Ok(r);
    }
    if out.Fail? {
      var c := changes[|rows|];
      assert ChangeRow(fields, inst, c).Err?;
      if Str(c.1).Ok? {
        assert FindField(fields, c.0).Some? ==> GetValue(fields, inst, c.0).error == UnicodeEncodeError;
      }
    }
  }

  /** `update_history` writes the rows of a prefix of the changes and, when
      it stops, the change after them is the one that raised. */
  lemma UpdateRowsPrefix(fields: seq<Field>, inst: Instance, changes: seq<(string, Value)>)
    requires HasAttributes(fields, inst)
    ensures var (rows, out) := UpdateRows(fields, inst, changes);
      && |rows| <= |changes|
      && (forall i :: 0 <= i < |rows| ==> ChangeRow(fields, inst, changes[i]) == Ok(rows[i]))
      && (out == Pass <==> |rows| == |changes|)
      && (out.Fail? ==> ChangeRow(fields, inst, changes[|rows|]) == Err(out.error))
  {
    CollectPrefix(ChangeResults(fields, inst, changes));
  }

  /** The History table, to which the writers append. */
  class HistoryTable {
    var rows: seq<HistoryRow>

    constructor ()
      ensures rows == []
    {
      rows := [];
    }
  }

  /** `create_history`: a row per field until `get_value` raises; the rows
      already written stay. */
  method CreateHistory(h: HistoryTable, fields: seq<Field>, inst: Instance) returns (out: Outcome)
    requires HasAttributes(fields, inst)
    modifies h
    ensures h.rows == old(h.rows) + CreateRecords(fields, inst)
    ensures out == WriteOutcome(fields, inst)
  {
    ghost var start := h.rows;
    for i := 0 to |fields|
      invariant i <= StoredCount(fields, inst)
      invariant h.rows == start + CreateRecords(fields, inst)[..i]
    {
      var next := GetValue(fields, inst, fields[i].name);
      if next.Err? {
        assert !Storable(fields, inst, i);
        assert i == StoredCount(fields, inst);
        assert FindField(fields, fields[i].name).Some?;
        assert CreateRecords(fields, inst)[..i] == CreateRecords(fields, inst);
        return Fail(next.error);
      }
      h.rows := h.rows + [HistoryRow(inst.model, inst.pk, fields[i].name, "None", next.value, CreateAction)];
      assert CreateRecords(fields, inst)[..i + 1] == CreateRecords(fields, inst)[..i] + [CreateRow(fields, inst, i)];
    }
    assert CreateRecords(fields, inst)[..|fields|] == CreateRecords(fields, inst);
    return Pass;
  }

  /** `delete_history`: a row per field until `get_value` raises; the rows
      already written stay. */
  method DeleteHistory(h: HistoryTable, fields: seq<Field>, inst: Instance) returns (out: Outcome)
    requires HasAttributes(fields, inst)
    modifies h
    ensures h.rows == old(h.rows) + DeleteRecords(fields, inst)
    ensures out == WriteOutcome(fields, inst)
  {
    ghost var start := h.rows;
    for i := 0 to |fields|
      invariant i <= StoredCount(fields, inst)
      invariant h.rows == start + DeleteRecords(fields, inst)[..i]
    {
      var prev := GetValue(fields, inst, fields[i].name);
      if prev.Err? {
        assert !Storable(fields, inst, i);
        assert i == StoredCount(fields, inst);
        assert FindField(fields, fields[i].name).Some?;
        assert DeleteRecords(fields, inst)[..i] == DeleteRecords(fields, inst);
        return Fail(prev.error);
      }
      h.rows := h.rows + [HistoryRow(inst.model, inst.pk, fields[i].name, prev.value, "None", DeleteAction)];
      assert DeleteRecords(fields, inst)[..i + 1] == DeleteRecords(fields, inst)[..i] + [DeleteRow(fields, inst, i)];
    }
    assert DeleteRecords(fields, inst)[..|fields|] == DeleteRecords(fields, inst);
    return Pass;
  }

  /** `update_history`: a change whose old or current value raises stops it
      after the rows for the changes before it were written. */
  method UpdateHistory(h: HistoryTable, fields: seq<Field>, inst: Instance, changes: seq<(string, Value)>)
    returns (out: Outcome)
    requires HasAttributes(fields, inst)
    modifies h
    ensures h.rows == old(h.rows) + UpdateRows(fields, inst, changes).0
    ensures out == UpdateRows(fields, inst, changes).1
  {
    ghost var start := h.rows;
    ghost var rows := UpdateRows(fields, inst, changes).0;
    for i := 0 to |changes|
      invariant i <= |rows|
      invariant h.rows == start + rows[..i]
    {
      UpdateStep(fields, inst, changes, i);
      var step := WriteChange(h, fields, inst, changes[i]);
      if step.Fail? {
        return step;
      }
    }
    UpdateRowsPrefix(fields, inst, changes);
    assert rows[..|changes|] == rows;
    return Pass;
  }

  /** Change `i`, reached after the rows of the changes before it, either
      raises, which ends the rows there with its error, or writes the next
      row. */
  lemma UpdateStep(fields: seq<Field>, inst: Instance, changes: seq<(string, Value)>, i: nat)
    requires HasAttributes(fields, inst)
    requires i < |changes| && i <= |UpdateRows(fields, inst, changes).0|
    ensures var (rows, out) := UpdateRows(fields, inst, changes);
      && (ChangeRow(fields, inst, changes[i]).Err? ==>
            rows[..i] == rows && out == Fail(ChangeRow(fields, inst, changes[i]).error))
      && (ChangeRow(fields, inst, changes[i]).Ok? ==>
            i < |rows| && rows[..i + 1] == rows[..i] + [ChangeRow(fields, inst, changes[i]).value])
  {
    CollectStep(ChangeResults(fields, inst, changes), i);
  }

  /** The body of `update_history`'s loop: `str()` of the old value, then
      `get_value` of the field, then one History row. */
  method WriteChange(h: HistoryTable, fields: seq<Field>, inst: Instance, change: (string, Value))
    returns (out: Outcome)
    requires HasAttributes(fields, inst)
    modifies h
    ensures ChangeRow(fields, inst, change).Err? ==>
      out == Fail(ChangeRow(fields, inst, change).error) && h.rows == old(h.rows)
    ensures ChangeRow(fields, inst, change).Ok? ==>
      out == Pass && h.rows == old(h.rows) + [ChangeRow(fields, inst, change).value]
  {
    var (key, value) := change;
    var prev := Str(value);
    if prev.Err? {
      return Fail(prev.error);
    }
    var next := GetValue(fields, inst, key);
    if next.Err? {
      return Fail(next.error);
    }
    h.rows := h.rows + [HistoryRow(inst.model, inst.pk, key, prev.value, next.value, UpdateAction)];
    return Pass;
  }

  // ---------------------------------------------------------------------
  // The receivers (signals.py)
  // ---------------------------------------------------------------------

  /** The model signals the receivers listen to. */
  datatype Signal = PostSave(created: bool) | PreSave(adding: bool) | PreDelete

  /** Which writer a signal reaches. */
  datatype Handler = RecordCreate | RecordUpdate | RecordDelete | Ignore

  /** Only workflows, grants and tasks are tracked. */
  predicate Tracked(m: ModelName) {
    m == WorkflowTable || m == TaskTable || m == AccessTable
  }

  /** The three receivers: `post_save` of a created record writes creates,
      `pre_save` of a record not being added writes updates, `pre_delete`
      writes deletes; nothing else is recorded. */
  function Receiver(model: ModelName, signal: Signal): (r: Handler)
    ensures !Tracked(model) ==> r == Ignore
    ensures Tracked(model) ==>
      && (r == RecordCreate <==> signal == PostSave(true))
      && (r == RecordUpdate <==> signal == PreSave(false))
      && (r == RecordDelete <==> signal == PreDelete)
  {
    if !Tracked(model) then Ignore
    else match signal
      case PostSave(created) => if created then RecordCreate else Ignore
      case PreSave(adding) => if !adding then RecordUpdate else Ignore
      case PreDelete => RecordDelete
  }

  /** The rows one signal writes, and whether its writer raised. */
  function SignalRows(fields: seq<Field>, inst: Instance, signal: Signal, changes: seq<(string, Value)>)
    : (seq<HistoryRow>, Outcome)
    requires HasAttributes(fields, inst)
  {
    match Receiver(inst.model, signal)
    case RecordCreate => (CreateRecords(fields, inst), WriteOutcome(fields, inst))
    case RecordUpdate => UpdateRows(fields, inst, changes)
    case RecordDelete => (DeleteRecords(fields, inst), WriteOutcome(fields, inst))
    case Ignore => ([], Pass)
  }

  /** Delivering one signal to the receivers. */
  method OnSignal(h: HistoryTable, fields: seq<Field>, inst: Instance, signal: Signal, changes: seq<(string, Value)>)
    returns (out: Outcome)
    requires HasAttributes(fields, inst)
    modifies h
    ensures h.rows == old(h.rows) + SignalRows(fields, inst, signal, changes).0
    ensures out == SignalRows(fields, inst, signal, changes).1
  {
    out := Pass;
    match Receiver(inst.model, signal)
    case RecordCreate => out := CreateHistory(h, fields, inst);
    case RecordUpdate => out := UpdateHistory(h, fields, inst, changes);
    case RecordDelete => out := DeleteHistory(h, fields, inst);
    case Ignore =>
  }

  /** A save delivers `pre_save` and then `post_save`, with `created` equal
      to `adding`; a raise in the first receiver ends the save. A new tracked
      record so gets exactly the create rows and an existing one exactly the
      update rows. */
  function SaveRows(fields: seq<Field>, inst: Instance, adding: bool, changes: seq<(string, Value)>)
    : (r: (seq<HistoryRow>, Outcome))
    requires HasAttributes(fields, inst)
    ensures !Tracked(inst.model) ==> r == ([], Pass)
    ensures Tracked(inst.model) && adding ==> r == (CreateRecords(fields, inst), WriteOutcome(fields, inst))
    ensures Tracked(inst.model) && !adding ==> r == UpdateRows(fields, inst, changes)
  {
    var before := SignalRows(fields, inst, PreSave(adding), changes);
    if before.1.Fail? then before
    else
      var after := SignalRows(fields, inst, PostSave(adding), changes);
      assert [] + after.0 == after.0 && before.0 + [] == before.0;
      (before.0 + after.0, after.1)
  }

  /** Saving a new tracked record writes only CREATE rows, one per field
      unless a value raises; saving an existing one writes only UPDATE rows;
      an untracked model writes nothing. */
  lemma SaveWritesOneKind(fields: seq<Field>, inst: Instance, adding: bool, changes: seq<(string, Value)>)
    requires HasAttributes(fields, inst)
    ensures var (rows, out) := SaveRows(fields, inst, adding, changes);
      && (!Tracked(inst.model) ==> rows == [] && out == Pass)
      && (Tracked(inst.model) && adding ==>
            && rows == CreateRecords(fields, inst)
            && (out == Pass <==> |rows| == |fields|)
            && (forall r :: r in rows ==> r.action == CreateAction))
      && (Tracked(inst.model) && !adding ==> forall r :: r in rows ==> r.action == UpdateAction)
  {
    var (rows, out) := SaveRows(fields, inst, adding, changes);
    if Tracked(inst.model) && adding {
      CreateDeleteMirror(fields, inst);
      assert rows == [] + CreateRecords(fields, inst);
    }
    if Tracked(inst.model) && !adding {
      UpdateRowsShape(fields, inst, changes);
      assert rows == UpdateRows(fields, inst, changes).0 + [];
    }
  }

  /** A delete of a tracked record writes only DELETE rows. */
  lemma DeleteWritesDeletes(fields: seq<Field>, inst: Instance, changes: seq<(string, Value)>)
    requires HasAttributes(fields, inst) && Tracked(inst.model)
    ensures SignalRows(fields, inst, PreDelete, changes) == (DeleteRecords(fields, inst), WriteOutcome(fields, inst))
    ensures forall r :: r in DeleteRecords(fields, inst) ==> r.action == DeleteAction
  {
  }

  // ---------------------------------------------------------------------
  // Display (models.py)
  // ---------------------------------------------------------------------

  /** `_history_representation()` of each existing record, by model and key. */
  type Representations = map<ModelName, map<Id, string>>

  /** `_related_field_representation`: the related record looked up by the
      stored key. */
  function RelatedDisplay(reprs: Representations, target: ModelName, value: string): (r: Result<string>)
    ensures ParseInt(value).Err? ==> r == Err(ValueError)
    ensures ParseInt(value).Ok? ==>
      var k := ParseInt(value).value;
      if k >= 0 && target in reprs && k in reprs[target] then r == Ok(reprs[target][k])
      else r == Err(DoesNotExist)
  {
    match ParseInt(value)
    case Err(e) => Err(e)
    case Ok(k) =>
      if k >= 0 && target in reprs && k in reprs[target] then Ok(reprs[target][k]) else Err(DoesNotExist)
  }

  /** `_choice_field_representation`: `int()` of the stored string, looked up
      in the choices; an unknown key raises. */
  function ChoiceDisplay(choices: map<int, string>, value: string): (r: Result<string>)
    ensures ParseInt(value).Err? ==> r == Err(ValueError)
    ensures ParseInt(value).Ok? && ParseInt(value).value !in choices ==> r == Err(KeyError)
    ensures ParseInt(value).Ok? && ParseInt(value).value in choices ==> r == Ok(choices[ParseInt(value).value])
  {
    match ParseInt(value)
    case Err(e) => Err(e)
    case Ok(k) => if k in choices then Ok(choices[k]) else Err(KeyError)
  }

  /** `_get_display_value`: None and "None" are shown unchanged; otherwise
      the field is looked up on the row's model and a foreign key shows the
      related record, a field with choices shows the label, and any other
      field shows the stored string. */
  function DisplayValue(schema: map<ModelName, seq<Field>>, reprs: Representations,
                        model: ModelName, fieldName: string, value: Option<string>): (r: Result<Option<string>>)
    requires model in schema
    ensures value.None? ==> r == Ok(None)
    ensures value == Some("None") ==> r == Ok(value)
    ensures value.Some? && value.value != "None" && FindField(schema[model], fieldName).None? ==>
      r == Err(FieldDoesNotExist)
    ensures value.Some? && value.value != "None" && FindField(schema[model], fieldName).Some? ==>
      var kind := FindField(schema[model], fieldName).value.kind;
      && (kind.ForeignKey? ==> r == Some?Of(RelatedDisplay(reprs, kind.target, value.value)))
      && (kind.Choice? && |kind.choices| > 0 ==> r == Some?Of(ChoiceDisplay(kind.choices, value.value)))
      && (kind.Plain? || (kind.Choice? && |kind.choices| == 0) ==> r == Ok(value))
  {
    match value
    case None => Ok(None)
    case Some(s) =>
      if s == "None" then Ok(value)
      else match FindField(schema[model], fieldName)
        case None => Err(FieldDoesNotExist)
        case Some(f) =>
          match f.kind
          case ForeignKey(target) => Some?Of(RelatedDisplay(reprs, target, s))
          case Choice(choices) => if |choices| > 0 then Some?Of(ChoiceDisplay(choices, s)) else Ok(value)
          case Plain => Ok(value)
  }

  /** A shown string, or the error that stopped the lookup. */
  function Some?Of(r: Result<string>): Result<Option<string>> {
    match r
    case Ok(s) => Ok(Some(s))
    case Err(e) => Err(e)
  }

  /** `get_prev_value_display` and `get_next_value_display`: the same rule
      applied to the row's two stored strings. */
  function PrevDisplay(schema: map<ModelName, seq<Field>>, reprs: Representations, row: HistoryRow)
    : (r: Result<Option<string>>)
    requires row.model in schema
    ensures row.prev == "None" ==> r == Ok(Some("None"))
    ensures r.Ok? ==> r.value.Some?
    ensures row.prev != "None" && FindField(schema[row.model], row.fieldName).None? ==> r == Err(FieldDoesNotExist)
  {
    DisplayValue(schema, reprs, row.model, row.fieldName, Some(row.prev))
  }

  function NextDisplay(schema: map<ModelName, seq<Field>>, reprs: Representations, row: HistoryRow)
    : (r: Result<Option<string>>)
    requires row.model in schema
    ensures row.next == "None" ==> r == Ok(Some("None"))
    ensures r.Ok? ==> r.value.Some?
    ensures row.next != "None" && FindField(schema[row.model], row.fieldName).None? ==> r == Err(FieldDoesNotExist)
  {
    DisplayValue(schema, reprs, row.model, row.fieldName, Some(row.next))
  }

  /** `get_content_object_display`: the record's representation, or "None"
      when the record no longer exists. */
  function ContentObjectDisplay(reprs: Representations, row: HistoryRow): (r: string)
    ensures (row.model in reprs && row.objectId in reprs[row.model]) ==> r == reprs[row.model][row.objectId]
    ensures !(row.model in reprs && row.objectId in reprs[row.model]) ==> r == "None"
  {
    if row.model in reprs && row.objectId in reprs[row.model] then reprs[row.model][row.objectId] else "None"
  }

  /** What a create stores, the display shows as meant: the label of a
      choice, the representation of the related record, the text of a plain
      field, and "None" for an empty attribute; its previous value shows as
      "None". */
  lemma StoredValueDisplays(schema: map<ModelName, seq<Field>>, reprs: Representations, inst: Instance, i: int)
    requires inst.model in schema
    requires DistinctNames(schema[inst.model]) && HasAttributes(schema[inst.model], inst)
    requires 0 <= i < |CreateRecords(schema[inst.model], inst)|
    ensures var fields := schema[inst.model];
      var f := fields[i];
      var row := CreateRecords(fields, inst)[i];
      var shown := NextDisplay(schema, reprs, row);
      && PrevDisplay(schema, reprs, row) == Ok(Some("None"))
      && (inst.attrs[Attname(f)] == NoneValue ==> shown == Ok(Some("None")))
      && (f.kind.Choice? && |f.kind.choices| > 0 && inst.attrs[f.name].Int? &&
          inst.attrs[f.name].i in f.kind.choices ==>
            shown == Ok(Some(f.kind.choices[inst.attrs[f.name].i])))
      && (f.kind.ForeignKey? && inst.attrs[f.name + "_id"].Int? ==>
            var k := inst.attrs[f.name + "_id"].i;
            k >= 0 && f.kind.target in reprs && k in reprs[f.kind.target] ==>
              shown == Ok(Some(reprs[f.kind.target][k])))
      && (f.kind.Plain? && inst.attrs[f.name].Text? ==> shown == Ok(Some(inst.attrs[f.name].s)))
  {
    var fields := schema[inst.model];
    var f := fields[i];
    GetValueOfField(fields, inst, i);
    var found := FindField(fields, f.name).value;
    var k :| 0 <= k < |fields| && fields[k] == found && fields[k].name == f.name;
    assert k == i;
    var v := inst.attrs[Attname(f)];
    assert Storable(fields, inst, i);
    if v.Int? {
      IntParse(v.i);
      var s := IntToString(v.i);
      assert s != "None" by {
        if v.i >= 0 { assert IsDigit(NatToString(v.i)[0]); }
      }
    }
  }
}
