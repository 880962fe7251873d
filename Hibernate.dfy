/** The field-level audit engine that listens to the store's post-insert,
    pre-update and pre-delete events. For every field that is marked as
    audited and whose value changed, it saves one EntityAudit row. */
module Hibernate {
  import opened JavaLang
  import opened Jpa
  import opened Session

  /** A declared field of a tracked class: its Java name, whether it carries
      the audit marker, and the name of its column override, if any. */
  datatype FieldDecl = FieldDecl(name: string, audited: bool, column: Option<string>)

  /** The static description of a tracked class: its fully qualified name,
      the name of its table override, if any, and its declared fields. */
  datatype EntitySchema = EntitySchema(className: string, table: Option<string>, fields: seq<FieldDecl>)

  /** The identifier of the instance: null, an integral Number, or an object
      that is not a Number. */
  datatype Id = NoId | Num(n: int) | NonNumeric

  /** The exceptions the engine raises. StateIndexOutOfBounds is the array
      index error of reading a state array shorter than the field list; all
      others are IllegalStateException. */
  datatype AuditError =
    | NoFields(className: string)
    | StateIndexOutOfBounds(index: nat)
    | NoSuchField(fieldName: string)
    | EmptyId(className: string)
    | IdNotNumber(className: string)

  /** What a lifecycle event hands the engine: the property names of the
      entity's metamodel (null or not), the old and the new state arrays
      (absent on insert and delete respectively), and the identifier. */
  datatype Event<V> = Event(fieldNames: Option<seq<string>>,
                            oldState: Option<seq<Option<V>>>,
                            newState: Option<seq<Option<V>>>,
                            id: Id)

  /** What processing an event does: the rows saved, in order, and the
      exception that stopped it, if any. */
  datatype Trace = Trace(rows: seq<Row>, error: Option<AuditError>)

  // ---------------------------------------------------------------------
  // Field policy: the static replacement of reflection and annotations
  // ---------------------------------------------------------------------

  /** Class.getDeclaredField: the declared field of that name, if any. */
  function DeclaredField(fields: seq<FieldDecl>, name: string): (r: Option<FieldDecl>)
    ensures r.Some? ==> r.value in fields && r.value.name == name
    ensures r.None? <==> forall f :: f in fields ==> f.name != name
  {
    if fields == [] then None
    else if fields[0].name == name then Some(fields[0])
    else DeclaredField(fields[1..], name)
  }

  /** The entity name of the rows: the @Table name if the class has one. */
  function EntityName(schema: EntitySchema): string
  {
    match schema.table
    case Some(t) => t
    case None => schema.className
  }

  /** The field name of a row: the @Column name if the field has one. */
  function AuditedFieldName(field: FieldDecl): string
  {
    match field.column
    case Some(c) => c
    case None => field.name
  }

  /** state.map(s -> s[i]).orElse(null) for an optional state array. */
  function ValueAt<V>(state: Option<seq<Option<V>>>, i: nat): Result<Option<V>, AuditError>
  {
    match state
    case None => Ok(None)
    case Some(s) => if i < |s| then Ok(s[i]) else Err(StateIndexOutOfBounds(i))
  }

  // ---------------------------------------------------------------------
  // The engine as functions
  // ---------------------------------------------------------------------

  /** What auditFieldChangeIfNeed does for one field: fail if the field is
      not declared; nothing if it is not audited or did not change; otherwise
      fail on a null or non-numeric id, else the row to save. */
  function FieldChange<V(==)>(schema: EntitySchema, id: Id, fieldName: string,
                              oldValue: Option<V>, newValue: Option<V>,
                              toStr: V -> string): (r: Result<Option<Row>, AuditError>)
  {
    match DeclaredField(schema.fields, fieldName)
    case None => Err(NoSuchField(fieldName))
    case Some(field) =>
      if !field.audited || ObjectsEquals(oldValue, newValue) then Ok(None)
      else if id.NoId? then Err(EmptyId(schema.className))
      else if id.NonNumeric? then Err(IdNotNumber(schema.className))
      else Ok(Some(Row(EntityName(schema), AuditedFieldName(field), LongValue(id.n),
                       ObjectsToString(newValue, toStr, None))))
  }

  /** The outcome of one field: an undeclared field is an exception; a row
      exactly when the field is audited, its value changed and the id is a
      Number, with the names resolved through the overrides and the new value
      as text; otherwise an exception only for a changed audited field whose
      id is null or not a Number. */
  lemma FieldChangeCases<V>(schema: EntitySchema, id: Id, fieldName: string,
                            oldValue: Option<V>, newValue: Option<V>, toStr: V -> string)
    ensures var r := FieldChange(schema, id, fieldName, oldValue, newValue, toStr);
            var field := DeclaredField(schema.fields, fieldName);
      (r == Err(NoSuchField(fieldName)) <==> field.None?) &&
      (r.Ok? && r.value.Some? <==> field.Some? && field.value.audited && oldValue != newValue && id.Num?) &&
      (r.Ok? && r.value.Some? ==>
         r.value.value.entityName == (if schema.table.Some? then schema.table.value else schema.className) &&
         r.value.value.fieldName == (if field.value.column.Some? then field.value.column.value else fieldName) &&
         r.value.value.entityId == LongValue(id.n) &&
         r.value.value.state == (if newValue.Some? then Some(toStr(newValue.value)) else None)) &&
      (r.Err? && field.Some? ==>
         field.value.audited && oldValue != newValue &&
         r.error == (if id.NoId? then EmptyId(schema.className) else IdNotNumber(schema.className)))
  {
  }

  /** One iteration of the loop of auditEntityChanges: read the old and the
      new value of field i, then audit it. */
  function StepAt<V(==)>(schema: EntitySchema, ev: Event<V>, names: seq<string>,
                         toStr: V -> string, i: nat): Result<Option<Row>, AuditError>
    requires i < |names|
  {
    match ValueAt(ev.oldState, i)
    case Err(e) => Err(e)
    case Ok(oldValue) =>
      match ValueAt(ev.newState, i)
      case Err(e) => Err(e)
      case Ok(newValue) => FieldChange(schema, ev.id, names[i], oldValue, newValue, toStr)
  }

  /** The outcome of one field: nothing, a row to save, or an exception. */
  type Outcome = Result<Option<Row>, AuditError>

  /** The rows that one field's outcome adds to the log. */
  function Saved(r: Outcome): seq<Row>
  {
    if r.Ok? && r.value.Some? then [r.value.value] else []
  }

  /** The loop over the fields' outcomes, in order: rows are saved one by
      one, and the first exception ends the loop. */
  function Run(rs: seq<Outcome>): (t: Trace)
    ensures |t.rows| <= |rs|
  {
    if rs == [] then Trace([], None)
    else
      var t := Run(rs[..|rs| - 1]);
      var r := rs[|rs| - 1];
      if t.error.Some? then t
      else if r.Err? then Trace(t.rows, Some(r.error))
      else Trace(t.rows + Saved(r), None)
  }

  /** The outcomes of the first k fields, in field order. */
  function Outcomes<V(==)>(schema: EntitySchema, ev: Event<V>, names: seq<string>,
                           toStr: V -> string, k: nat): (rs: seq<Outcome>)
    requires k <= |names|
    ensures |rs| == k
  {
    if k == 0 then [] else Outcomes(schema, ev, names, toStr, k - 1) + [StepAt(schema, ev, names, toStr, k - 1)]
  }

  /** auditEntityChanges: no fields is fatal; otherwise the whole loop. */
  function Audit<V(==)>(schema: EntitySchema, ev: Event<V>, toStr: V -> string): (t: Trace)
    ensures |t.rows| <= if ev.fieldNames.Some? then |ev.fieldNames.value| else 0
  {
    match ev.fieldNames
    case None => Trace([], Some(NoFields(schema.className)))
    case Some(names) =>
      if |names| == 0 then Trace([], Some(NoFields(schema.className)))
      else Run(Outcomes(schema, ev, names, toStr, |names|))
  }

  // ---------------------------------------------------------------------
  // The loop, whatever the fields say
  // ---------------------------------------------------------------------

  /** No outcome is an exception. */
  predicate AllOk(rs: seq<Outcome>)
  {
    forall i :: 0 <= i < |rs| ==> rs[i].Ok?
  }

  /** The rows of all outcomes, exceptions skipped. */
  function AllSaved(rs: seq<Outcome>): seq<Row>
  {
    if rs == [] then [] else AllSaved(rs[..|rs| - 1]) + Saved(rs[|rs| - 1])
  }

  lemma AllSavedSnoc(rs: seq<Outcome>, r: Outcome)
    ensures AllSaved(rs + [r]) == AllSaved(rs) + Saved(r)
  {
    assert (rs + [r])[..|rs|] == rs;
  }

  /** The outcomes list the fields' outcomes by index. */
  lemma {:induction false} OutcomeAt<V>(schema: EntitySchema, ev: Event<V>, names: seq<string>,
                                        toStr: V -> string, k: nat, i: nat)
    requires i < k <= |names|
    ensures Outcomes(schema, ev, names, toStr, k)[i] == StepAt(schema, ev, names, toStr, i)
  {
    if i < k - 1 { OutcomeAt(schema, ev, names, toStr, k - 1, i); }
  }

  /** One more outcome, taken from the list itself. */
  lemma RunNext(rs: seq<Outcome>, i: nat)
    requires i < |rs|
    ensures Run(rs[..i + 1]).error == (if Run(rs[..i]).error.Some? then Run(rs[..i]).error
                                       else if rs[i].Err? then Some(rs[i].error) else None)
    ensures Run(rs[..i]).error.None? ==> Run(rs[..i + 1]).rows == Run(rs[..i]).rows + Saved(rs[i])
  {
    assert rs[..i + 1][..i] == rs[..i];
  }

  /** Once an exception is raised the later outcomes change nothing. */
  lemma {:induction false} RunStops(rs: seq<Outcome>, j: nat)
    requires j <= |rs| && Run(rs[..j]).error.Some?
    ensures Run(rs) == Run(rs[..j])
  {
    if j == |rs| {
      assert rs[..j] == rs;
    } else {
      var p := rs[..|rs| - 1];
      assert p[..j] == rs[..j];
      RunStops(p, j);
    }
  }

  /** The loop succeeds exactly when no outcome is an exception, and then it
      saves the rows of all outcomes; when it fails, it has saved a prefix of
      them and the exception is that of the first failing field. */
  lemma {:induction false} RunSpec(rs: seq<Outcome>)
    ensures Run(rs).rows <= AllSaved(rs)
    ensures Run(rs).error.None? <==> AllOk(rs)
    ensures Run(rs).error.None? ==> Run(rs).rows == AllSaved(rs)
    ensures Run(rs).error.Some? ==>
              exists i :: 0 <= i < |rs| && rs[i].Err? && Run(rs).error.value == rs[i].error &&
                          forall j :: 0 <= j < i ==> rs[j].Ok?
  {
    if rs != [] {
      var p := rs[..|rs| - 1];
      var last := rs[|rs| - 1];
      RunSpec(p);
      assert forall i :: 0 <= i < |p| ==> p[i] == rs[i];
      var t := Run(p);
      assert AllSaved(rs) == AllSaved(p) + Saved(last);
      if t.error.Some? {
        var i :| 0 <= i < |p| && p[i].Err? && t.error.value == p[i].error &&
                 forall j :: 0 <= j < i ==> p[j].Ok?;
        assert rs[i].Err?;
      } else if last.Err? {
        assert rs[|rs| - 1].Err?;
      }
    }
  }

  /** A failing loop stops at its first exception: the outcomes before it
      are all Ok, and the rows saved are exactly theirs. */
  lemma {:induction false} RunFailRows(rs: seq<Outcome>)
    requires Run(rs).error.Some?
    ensures exists i :: 0 <= i < |rs| && rs[i].Err? && Run(rs).error.value == rs[i].error &&
                        AllOk(rs[..i]) && Run(rs).rows == AllSaved(rs[..i])
  {
    var p := rs[..|rs| - 1];
    if Run(p).error.Some? {
      RunFailRows(p);
      var i :| 0 <= i < |p| && p[i].Err? && Run(p).error.value == p[i].error &&
               AllOk(p[..i]) && Run(p).rows == AllSaved(p[..i]);
      assert rs[..i] == p[..i];
      assert rs[i] == p[i];
    } else {
      RunSpec(p);
      assert rs[..|rs| - 1] == p;
    }
  }

  // ---------------------------------------------------------------------
  // An independent description of which fields produce rows
  // ---------------------------------------------------------------------

  ghost function OldValue<V>(ev: Event<V>, i: nat): Option<V>
  {
    if ev.oldState.Some? && i < |ev.oldState.value| then ev.oldState.value[i] else None
  }

  ghost function NewValue<V>(ev: Event<V>, i: nat): Option<V>
  {
    if ev.newState.Some? && i < |ev.newState.value| then ev.newState.value[i] else None
  }

  /** Reading field i raises nothing: both present states are long enough
      and the property is a declared field. */
  ghost predicate Readable<V>(schema: EntitySchema, ev: Event<V>, names: seq<string>, i: nat)
  {
    i < |names| &&
    (ev.oldState.Some? ==> i < |ev.oldState.value|) &&
    (ev.newState.Some? ==> i < |ev.newState.value|) &&
    DeclaredField(schema.fields, names[i]).Some?
  }

  /** The exception raised by reading a field i that cannot be read: the
      array index error when a present state array is too short (the old
      state is read first, the new one next, both with index i), otherwise
      the missing-field one. */
  ghost function ReadError<V>(ev: Event<V>, names: seq<string>, i: nat): AuditError
    requires i < |names|
  {
    if (ev.oldState.Some? && |ev.oldState.value| <= i) || (ev.newState.Some? && |ev.newState.value| <= i)
    then StateIndexOutOfBounds(i)
    else NoSuchField(names[i])
  }

  /** Field i is audited and its value changed. */
  ghost predicate Qualifies<V>(schema: EntitySchema, ev: Event<V>, names: seq<string>, i: nat)
  {
    Readable(schema, ev, names, i) &&
    DeclaredField(schema.fields, names[i]).value.audited &&
    OldValue(ev, i) != NewValue(ev, i)
  }

  /** The row a qualifying field i stands for. */
  ghost function ExpectedRow<V>(schema: EntitySchema, ev: Event<V>, names: seq<string>,
                                toStr: V -> string, i: nat): Row
    requires Readable(schema, ev, names, i) && ev.id.Num?
  {
    var field := DeclaredField(schema.fields, names[i]).value;
    Row(if schema.table.Some? then schema.table.value else schema.className,
        if field.column.Some? then field.column.value else names[i],
        LongValue(ev.id.n),
        if NewValue(ev, i).Some? then Some(toStr(NewValue(ev, i).value)) else None)
  }

  /** The rows the fields below k stand for: the expected row of each
      qualifying field, in field order. */
  ghost function ExpectedRows<V>(schema: EntitySchema, ev: Event<V>, names: seq<string>,
                                 toStr: V -> string, k: nat): seq<Row>
    requires k <= |names| && ev.id.Num?
  {
    if k == 0 then []
    else ExpectedRows(schema, ev, names, toStr, k - 1) +
         (if Qualifies(schema, ev, names, k - 1) then [ExpectedRow(schema, ev, names, toStr, k - 1)] else [])
  }

  /** Every field below k can be read. */
  ghost predicate AllReadable<V>(schema: EntitySchema, ev: Event<V>, names: seq<string>, k: nat)
  {
    forall i :: 0 <= i < k ==> Readable(schema, ev, names, i)
  }

  /** No field below k qualifies. */
  ghost predicate NoneQualifies<V>(schema: EntitySchema, ev: Event<V>, names: seq<string>, k: nat)
  {
    forall i :: 0 <= i < k ==> !Qualifies(schema, ev, names, i)
  }

  /** Each expected row is the row of a qualifying field, and there is at
      most one per field; none at all when no field qualifies. */
  lemma {:induction false} ExpectedRowsOrigin<V>(schema: EntitySchema, ev: Event<V>, names: seq<string>,
                                                 toStr: V -> string, k: nat)
    requires k <= |names| && ev.id.Num?
    ensures |ExpectedRows(schema, ev, names, toStr, k)| <= k
    ensures forall row :: row in ExpectedRows(schema, ev, names, toStr, k) ==>
              exists i :: 0 <= i < k && Qualifies(schema, ev, names, i) &&
                          row == ExpectedRow(schema, ev, names, toStr, i)
    ensures NoneQualifies(schema, ev, names, k) ==> ExpectedRows(schema, ev, names, toStr, k) == []
  {
    if k > 0 {
      ExpectedRowsOrigin(schema, ev, names, toStr, k - 1);
    }
  }

  // ---------------------------------------------------------------------
  // Properties of the engine
  // ---------------------------------------------------------------------

  /** The outcome of field i in terms of the independent description. */
  lemma StepAtCases<V>(schema: EntitySchema, ev: Event<V>, names: seq<string>, toStr: V -> string, i: nat)
    requires i < |names|
    ensures var r := StepAt(schema, ev, names, toStr, i);
      (r.Err? <==> !Readable(schema, ev, names, i) || (Qualifies(schema, ev, names, i) && !ev.id.Num?)) &&
      (r.Ok? && r.value.Some? <==> Qualifies(schema, ev, names, i) && ev.id.Num?) &&
      (r.Ok? && r.value.Some? ==> r.value.value == ExpectedRow(schema, ev, names, toStr, i)) &&
      (!Readable(schema, ev, names, i) ==> r == Err(ReadError(ev, names, i))) &&
      (r.Err? && Readable(schema, ev, names, i) ==>
         r.error == (if ev.id.NoId? then EmptyId(schema.className) else IdNotNumber(schema.className)))
  {
    match ValueAt(ev.oldState, i)
    case Err(_) =>
    case Ok(oldValue) =>
      match ValueAt(ev.newState, i)
      case Err(_) =>
      case Ok(newValue) => FieldChangeCases(schema, ev.id, names[i], oldValue, newValue, toStr);
  }

  /** Field i adds its expected row exactly when it qualifies under a Number
      id, and nothing otherwise. */
  lemma SavedAt<V>(schema: EntitySchema, ev: Event<V>, names: seq<string>, toStr: V -> string, i: nat)
    requires i < |names|
    ensures Saved(StepAt(schema, ev, names, toStr, i)) ==
              if ev.id.Num? && Qualifies(schema, ev, names, i) then [ExpectedRow(schema, ev, names, toStr, i)] else []
  {
    StepAtCases(schema, ev, names, toStr, i);
  }

  /** The rows of the first k outcomes are the expected rows of the fields
      below k when the id is a Number, and none otherwise. */
  lemma {:induction false} SavedAreQualifying<V>(schema: EntitySchema, ev: Event<V>, names: seq<string>,
                                                 toStr: V -> string, k: nat)
    requires k <= |names|
    ensures AllSaved(Outcomes(schema, ev, names, toStr, k)) ==
              if ev.id.Num? then ExpectedRows(schema, ev, names, toStr, k) else []
  {
    if k > 0 {
      var prev := Outcomes(schema, ev, names, toStr, k - 1);
      var r := StepAt(schema, ev, names, toStr, k - 1);
      assert Outcomes(schema, ev, names, toStr, k) == prev + [r];
      SavedAreQualifying(schema, ev, names, toStr, k - 1);
      AllSavedSnoc(prev, r);
      SavedAt(schema, ev, names, toStr, k - 1);
    }
  }

  /** No outcome is an exception exactly when every field can be read and
      either the id is a Number or no field qualifies. */
  lemma OutcomesAllOk<V>(schema: EntitySchema, ev: Event<V>, names: seq<string>, toStr: V -> string)
    ensures AllOk(Outcomes(schema, ev, names, toStr, |names|)) <==>
              AllReadable(schema, ev, names, |names|) &&
              (ev.id.Num? || NoneQualifies(schema, ev, names, |names|))
  {
    var rs := Outcomes(schema, ev, names, toStr, |names|);
    forall i | 0 <= i < |names|
      ensures rs[i].Err? <==> !Readable(schema, ev, names, i) || (Qualifies(schema, ev, names, i) && !ev.id.Num?)
    {
      OutcomeAt(schema, ev, names, toStr, |names|, i);
      StepAtCases(schema, ev, names, toStr, i);
    }
    if AllOk(rs) {
      assert AllReadable(schema, ev, names, |names|);
    }
    if AllReadable(schema, ev, names, |names|) && (ev.id.Num? || NoneQualifies(schema, ev, names, |names|)) {
      forall i | 0 <= i < |rs| ensures rs[i].Ok? {
        assert Readable(schema, ev, names, i);
      }
    }
  }

  /** An event with fields succeeds exactly when every field can be read and
      either the id is a Number or no field qualifies. */
  lemma AuditSucceedsIff<V>(schema: EntitySchema, ev: Event<V>, toStr: V -> string)
    requires ev.fieldNames.Some? && |ev.fieldNames.value| > 0
    ensures var names := ev.fieldNames.value;
      Audit(schema, ev, toStr).error.None? <==>
        AllReadable(schema, ev, names, |names|) && (ev.id.Num? || NoneQualifies(schema, ev, names, |names|))
  {
    var names := ev.fieldNames.value;
    RunSpec(Outcomes(schema, ev, names, toStr, |names|));
    OutcomesAllOk(schema, ev, names, toStr);
  }

  /** The outcomes of the first k fields begin the outcomes of the first m. */
  lemma {:induction false} OutcomesPrefix<V>(schema: EntitySchema, ev: Event<V>, names: seq<string>,
                                             toStr: V -> string, k: nat, m: nat)
    requires k <= m <= |names|
    ensures Outcomes(schema, ev, names, toStr, m)[..k] == Outcomes(schema, ev, names, toStr, k)
  {
    if k < m {
      OutcomesPrefix(schema, ev, names, toStr, k, m - 1);
      assert Outcomes(schema, ev, names, toStr, m)[..m - 1] == Outcomes(schema, ev, names, toStr, m - 1);
    }
  }

  /** When the first k outcomes are Ok, every field below k can be read and,
      under an id that is not a Number, none of them qualifies. */
  lemma OkBeforeIsReadable<V>(schema: EntitySchema, ev: Event<V>, names: seq<string>,
                              toStr: V -> string, k: nat)
    requires k <= |names| && AllOk(Outcomes(schema, ev, names, toStr, k))
    ensures AllReadable(schema, ev, names, k) && (ev.id.Num? || NoneQualifies(schema, ev, names, k))
  {
    forall j | 0 <= j < k
      ensures Readable(schema, ev, names, j) && (ev.id.Num? || !Qualifies(schema, ev, names, j))
    {
      OutcomeAt(schema, ev, names, toStr, k, j);
      StepAtCases(schema, ev, names, toStr, j);
    }
  }

  /** A failing event with fields stops at one field k: every field before
      it can be read and, under an id that is not a Number, none before it
      qualifies; field k cannot be read, or qualifies under a bad id; the
      exception is the read error of field k or else the one about the id;
      and the rows saved are the expected rows of the fields before k. */
  lemma AuditFailsAtFirstBadField<V>(schema: EntitySchema, ev: Event<V>, toStr: V -> string)
    requires ev.fieldNames.Some? && |ev.fieldNames.value| > 0
    ensures var names := ev.fieldNames.value;
            var t := Audit(schema, ev, toStr);
      t.error.Some? ==>
        exists k :: 0 <= k < |names| &&
          AllReadable(schema, ev, names, k) && (ev.id.Num? || NoneQualifies(schema, ev, names, k)) &&
          (!Readable(schema, ev, names, k) || (Qualifies(schema, ev, names, k) && !ev.id.Num?)) &&
          t.error.value == (if !Readable(schema, ev, names, k) then ReadError(ev, names, k)
                            else if ev.id.NoId? then EmptyId(schema.className)
                            else IdNotNumber(schema.className)) &&
          t.rows == (if ev.id.Num? then ExpectedRows(schema, ev, names, toStr, k) else [])
  {
    var names := ev.fieldNames.value;
    var rs := Outcomes(schema, ev, names, toStr, |names|);
    if Run(rs).error.Some? {
      RunFailRows(rs);
      var k :| 0 <= k < |rs| && rs[k].Err? && Run(rs).error.value == rs[k].error &&
               AllOk(rs[..k]) && Run(rs).rows == AllSaved(rs[..k]);
      OutcomesPrefix(schema, ev, names, toStr, k, |names|);
      OkBeforeIsReadable(schema, ev, names, toStr, k);
      SavedAreQualifying(schema, ev, names, toStr, k);
      assert Audit(schema, ev, toStr).rows == (if ev.id.Num? then ExpectedRows(schema, ev, names, toStr, k) else []);
      OutcomeAt(schema, ev, names, toStr, |names|, k);
      StepAtCases(schema, ev, names, toStr, k);
      assert !Readable(schema, ev, names, k) || (Qualifies(schema, ev, names, k) && !ev.id.Num?);
    }
  }

  /** An event with fields saves at most one row per field: under a Number
      id a prefix of the expected rows, all of them when it succeeds, and
      under any other id none. */
  lemma AuditSavesExpected<V>(schema: EntitySchema, ev: Event<V>, toStr: V -> string)
    requires ev.fieldNames.Some? && |ev.fieldNames.value| > 0
    ensures var names := ev.fieldNames.value;
            var t := Audit(schema, ev, toStr);
      |t.rows| <= |names| &&
      (ev.id.Num? ==> t.rows <= ExpectedRows(schema, ev, names, toStr, |names|)) &&
      (ev.id.Num? && t.error.None? ==> t.rows == ExpectedRows(schema, ev, names, toStr, |names|)) &&
      (!ev.id.Num? ==> t.rows == [])
  {
    var names := ev.fieldNames.value;
    var rs := Outcomes(schema, ev, names, toStr, |names|);
    assert Audit(schema, ev, toStr) == Run(rs);
    RunSpec(rs);
    SavedAreQualifying(schema, ev, names, toStr, |names|);
    if ev.id.Num? {
      ExpectedRowsOrigin(schema, ev, names, toStr, |names|);
    }
  }

  /** One event saves the expected rows of its fields, in field order, at
      most one per field: all of them when it succeeds, those of the fields
      before the one that stops it when it fails, and none when the id is
      not a Number. It succeeds exactly when every field can be read and
      either the id is a Number or no field qualifies. */
  lemma AuditMatchesQualifying<V>(schema: EntitySchema, ev: Event<V>, toStr: V -> string)
    requires ev.fieldNames.Some? && |ev.fieldNames.value| > 0
    ensures var names := ev.fieldNames.value;
            var t := Audit(schema, ev, toStr);
      |t.rows| <= |names| &&
      (t.error.None? <==>
         AllReadable(schema, ev, names, |names|) && (ev.id.Num? || NoneQualifies(schema, ev, names, |names|))) &&
      (ev.id.Num? ==> t.rows <= ExpectedRows(schema, ev, names, toStr, |names|)) &&
      (ev.id.Num? && t.error.None? ==> t.rows == ExpectedRows(schema, ev, names, toStr, |names|)) &&
      (ev.id.Num? && t.error.Some? ==>
         exists k :: 0 <= k < |names| && AllReadable(schema, ev, names, k) &&
                     !Readable(schema, ev, names, k) && t.rows == ExpectedRows(schema, ev, names, toStr, k)) &&
      (!ev.id.Num? ==> t.rows == [])
  {
    AuditSucceedsIff(schema, ev, toStr);
    AuditSavesExpected(schema, ev, toStr);
    AuditFailsAtFirstBadField(schema, ev, toStr);
  }

  /** When every field can be read, the only exception an event can raise
      is the one about its id. */
  lemma ReadableEventFailsOnlyOnId<V>(schema: EntitySchema, ev: Event<V>, toStr: V -> string)
    requires ev.fieldNames.Some? && |ev.fieldNames.value| > 0
    requires AllReadable(schema, ev, ev.fieldNames.value, |ev.fieldNames.value|)
    ensures Audit(schema, ev, toStr).error.Some? ==>
              Audit(schema, ev, toStr).error.value ==
                (if ev.id.NoId? then EmptyId(schema.className) else IdNotNumber(schema.className))
  {
    var names := ev.fieldNames.value;
    var rs := Outcomes(schema, ev, names, toStr, |names|);
    RunSpec(rs);
    if Run(rs).error.Some? {
      var i :| 0 <= i < |rs| && rs[i].Err? && Run(rs).error.value == rs[i].error &&
               forall j :: 0 <= j < i ==> rs[j].Ok?;
      OutcomeAt(schema, ev, names, toStr, |names|, i);
      StepAtCases(schema, ev, names, toStr, i);
    }
  }

  /** A null or empty property list is fatal before anything is saved. */
  lemma NoFieldsIsFatal<V>(schema: EntitySchema, ev: Event<V>, toStr: V -> string)
    requires ev.fieldNames.None? || ev.fieldNames == Some([])
    ensures Audit(schema, ev, toStr) == Trace([], Some(NoFields(schema.className)))
  {
  }

  /** The id is looked at only once a field qualifies: when every field can
      be read and none qualifies, the event succeeds and saves nothing,
      whatever the id. */
  lemma IdCheckedOnlyOnChange<V>(schema: EntitySchema, ev: Event<V>, toStr: V -> string)
    requires ev.fieldNames.Some? && |ev.fieldNames.value| > 0
    requires AllReadable(schema, ev, ev.fieldNames.value, |ev.fieldNames.value|)
    requires NoneQualifies(schema, ev, ev.fieldNames.value, |ev.fieldNames.value|)
    ensures Audit(schema, ev, toStr) == Trace([], None)
  {
    AuditMatchesQualifying(schema, ev, toStr);
    if ev.id.Num? {
      ExpectedRowsOrigin(schema, ev, ev.fieldNames.value, toStr, |ev.fieldNames.value|);
    }
  }

  /** A null or non-numeric id never lets a row through; once every field
      can be read and one qualifies, it is the exception raised. */
  lemma BadIdSavesNothing<V>(schema: EntitySchema, ev: Event<V>, toStr: V -> string)
    requires !ev.id.Num?
    ensures Audit(schema, ev, toStr).rows == []
    ensures ev.fieldNames.Some? &&
            AllReadable(schema, ev, ev.fieldNames.value, |ev.fieldNames.value|) &&
            !NoneQualifies(schema, ev, ev.fieldNames.value, |ev.fieldNames.value|) ==>
              Audit(schema, ev, toStr).error ==
                Some(if ev.id.NoId? then EmptyId(schema.className) else IdNotNumber(schema.className))
  {
    if ev.fieldNames.Some? && |ev.fieldNames.value| > 0 {
      AuditMatchesQualifying(schema, ev, toStr);
      if AllReadable(schema, ev, ev.fieldNames.value, |ev.fieldNames.value|) {
        ReadableEventFailsOnlyOnId(schema, ev, toStr);
      }
    }
  }

  /** An insert has no old state, so a field qualifies exactly when it is
      audited and its new value is non-null, and every row it saves has a
      non-null state. */
  lemma InsertAuditsNonNullValues<V>(schema: EntitySchema, ev: Event<V>, toStr: V -> string)
    requires ev.oldState.None? && ev.fieldNames.Some?
    ensures var names := ev.fieldNames.value;
      forall i :: 0 <= i < |names| ==>
        (Qualifies(schema, ev, names, i) <==>
           Readable(schema, ev, names, i) && DeclaredField(schema.fields, names[i]).value.audited &&
           NewValue(ev, i).Some?)
    ensures forall j :: 0 <= j < |Audit(schema, ev, toStr).rows| ==> Audit(schema, ev, toStr).rows[j].state.Some?
  {
    var names := ev.fieldNames.value;
    if |names| > 0 && ev.id.Num? {
      AuditMatchesQualifying(schema, ev, toStr);
      ExpectedRowsOrigin(schema, ev, names, toStr, |names|);
      var rows := Audit(schema, ev, toStr).rows;
      forall j | 0 <= j < |rows| ensures rows[j].state.Some? {
        assert rows[j] in ExpectedRows(schema, ev, names, toStr, |names|);
      }
    } else if |names| > 0 {
      AuditMatchesQualifying(schema, ev, toStr);
    }
  }

  /** A delete has no new state, so a field qualifies exactly when it is
      audited and its old value is non-null, and every row it saves has a
      null state. */
  lemma DeleteAuditsNonNullValues<V>(schema: EntitySchema, ev: Event<V>, toStr: V -> string)
    requires ev.newState.None? && ev.fieldNames.Some?
    ensures var names := ev.fieldNames.value;
      forall i :: 0 <= i < |names| ==>
        (Qualifies(schema, ev, names, i) <==>
           Readable(schema, ev, names, i) && DeclaredField(schema.fields, names[i]).value.audited &&
           OldValue(ev, i).Some?)
    ensures forall j :: 0 <= j < |Audit(schema, ev, toStr).rows| ==> Audit(schema, ev, toStr).rows[j].state.None?
  {
    var names := ev.fieldNames.value;
    if |names| > 0 && ev.id.Num? {
      AuditMatchesQualifying(schema, ev, toStr);
      ExpectedRowsOrigin(schema, ev, names, toStr, |names|);
      var rows := Audit(schema, ev, toStr).rows;
      forall j | 0 <= j < |rows| ensures rows[j].state.None? {
        assert rows[j] in ExpectedRows(schema, ev, names, toStr, |names|);
      }
    } else if |names| > 0 {
      AuditMatchesQualifying(schema, ev, toStr);
    }
  }

  // ---------------------------------------------------------------------
  // The engine as the listener runs it: saving into the session
  // ---------------------------------------------------------------------

  /** auditFieldChangeIfNeed: saves the row FieldChange yields, if any. */
  method AuditFieldChangeIfNeed<V(==)>(log: AuditLog, schema: EntitySchema, id: Id, fieldName: string,
                                       oldValue: Option<V>, newValue: Option<V>,
                                       toStr: V -> string, now: int) returns (error: Option<AuditError>)
    modifies log
    ensures var r := FieldChange(schema, id, fieldName, oldValue, newValue, toStr);
      error == (if r.Err? then Some(r.error) else None) &&
      log.SavedFrom(|old(log.entries)|, Saved(r))
    ensures old(log.entries) <= log.entries
    ensures forall a :: a in log.entries && a !in old(log.entries) ==> fresh(a) && a.id == None && a.eventTime == now
    ensures log.DistinctFrom(|old(log.entries)|, old(log.entries))
  {
    var r := FieldChange(schema, id, fieldName, oldValue, newValue, toStr);
    match r
    case Err(e) =>
      error := Some(e);
    case Ok(None) =>
      error := None;
    case Ok(Some(row)) =>
      var audit := new EntityAudit(row.entityName, row.fieldName, row.entityId, row.state, now);
      log.Save(audit);
      error := None;
  }

  /** One iteration of the loop of auditEntityChanges: reads the old and the
      new value of field i and audits the change. The records from position
      `from` on, which held `done`, afterwards hold `done` and the row of
      field i, if any; they stay distinct records, none of them in
      `earlier`. */
  method AuditFieldAt<V(==)>(log: AuditLog, schema: EntitySchema, ev: Event<V>, names: seq<string>,
                             toStr: V -> string, now: int, i: nat,
                             ghost from: nat, ghost done: seq<Row>, ghost earlier: seq<EntityAudit>)
    returns (error: Option<AuditError>)
    requires i < |names|
    requires log.SavedFrom(from, done) && log.DistinctFrom(from, earlier)
    modifies log
    ensures var r := StepAt(schema, ev, names, toStr, i);
      error == (if r.Err? then Some(r.error) else None) &&
      log.SavedFrom(from, done + Saved(r)) && log.DistinctFrom(from, earlier)
    ensures old(log.entries) <= log.entries
    ensures forall a :: a in log.entries && a !in old(log.entries) ==> fresh(a) && a.id == None && a.eventTime == now
  {
    var oldValue, newValue;
    match ValueAt(ev.oldState, i) {
      case Err(e) => return Some(e);
      case Ok(v) => oldValue := v;
    }
    match ValueAt(ev.newState, i) {
      case Err(e) => return Some(e);
      case Ok(v) => newValue := v;
    }
    error := AuditFieldChangeIfNeed(log, schema, ev.id, names[i], oldValue, newValue, toStr, now);
  }

  /** The loop of auditEntityChanges: walks the fields in order and saves a
      row for each qualifying one; the first exception stops the walk, and
      the rows saved before it stay in the log. */
  method AuditFields<V(==)>(log: AuditLog, schema: EntitySchema, ev: Event<V>, names: seq<string>,
                            toStr: V -> string, now: int) returns (error: Option<AuditError>)
    modifies log
    ensures var t := Run(Outcomes(schema, ev, names, toStr, |names|));
      error == t.error &&
      log.SavedFrom(|old(log.entries)|, t.rows)
    ensures old(log.entries) <= log.entries
    ensures forall a :: a in log.entries && a !in old(log.entries) ==> fresh(a) && a.id == None && a.eventTime == now
    ensures log.DistinctFrom(|old(log.entries)|, old(log.entries))
  {
    ghost var rs := Outcomes(schema, ev, names, toStr, |names|);
    ghost var before := log.entries;
    error := None;
    var i := 0;
    while i < |names| && error.None?
      invariant 0 <= i <= |names|
      invariant error == Run(rs[..i]).error
      invariant log.SavedFrom(|before|, Run(rs[..i]).rows) && log.DistinctFrom(|before|, before)
      invariant before <= log.entries
      invariant forall a :: a in log.entries && a !in before ==> fresh(a) && a.id == None && a.eventTime == now
    {
      OutcomeAt(schema, ev, names, toStr, |names|, i);
      RunNext(rs, i);
      error := AuditFieldAt(log, schema, ev, names, toStr, now, i, |before|, Run(rs[..i]).rows, before);
      i := i + 1;
    }
    if error.Some? {
      RunStops(rs, i);
    } else {
      assert rs[..i] == rs;
    }
  }

  /** auditEntityChanges: a null or empty property list is fatal; otherwise
      the loop over the fields. */
  method AuditEntityChanges<V(==)>(log: AuditLog, schema: EntitySchema, ev: Event<V>,
                                   toStr: V -> string, now: int) returns (error: Option<AuditError>)
    modifies log
    ensures error == Audit(schema, ev, toStr).error
    ensures log.SavedFrom(|old(log.entries)|, Audit(schema, ev, toStr).rows)
    ensures old(log.entries) <= log.entries
    ensures forall a :: a in log.entries && a !in old(log.entries) ==> fresh(a) && a.id == None && a.eventTime == now
    ensures log.DistinctFrom(|old(log.entries)|, old(log.entries))
  {
    if ev.fieldNames.None? || |ev.fieldNames.value| == 0 {
      return Some(NoFields(schema.className));
    }
    error := AuditFields(log, schema, ev, ev.fieldNames.value, toStr, now);
  }

  /** onPostInsert: audits the new state against no old state. */
  method OnPostInsert<V(==)>(log: AuditLog, schema: EntitySchema, fieldNames: Option<seq<string>>,
                             state: Option<seq<Option<V>>>, id: Id,
                             toStr: V -> string, now: int) returns (error: Option<AuditError>)
    modifies log
    ensures var ev := Event(fieldNames, None, state, id);
      error == Audit(schema, ev, toStr).error &&
      log.SavedFrom(|old(log.entries)|, Audit(schema, ev, toStr).rows)
    ensures old(log.entries) <= log.entries
    ensures forall a :: a in log.entries && a !in old(log.entries) ==> fresh(a) && a.id == None && a.eventTime == now
    ensures log.DistinctFrom(|old(log.entries)|, old(log.entries))
  {
    error := AuditEntityChanges(log, schema, Event(fieldNames, None, state, id), toStr, now);
  }

  /** onPreUpdate: audits the new state against the old one and never vetoes
      the update; an exception is the Err result. */
  method OnPreUpdate<V(==)>(log: AuditLog, schema: EntitySchema, fieldNames: Option<seq<string>>,
                            oldState: Option<seq<Option<V>>>, state: Option<seq<Option<V>>>, id: Id,
                            toStr: V -> string, now: int) returns (veto: Result<bool, AuditError>)
    modifies log
    ensures var t := Audit(schema, Event(fieldNames, oldState, state, id), toStr);
      veto == (if t.error.Some? then Err(t.error.value) else Ok(false)) &&
      log.SavedFrom(|old(log.entries)|, t.rows)
    ensures old(log.entries) <= log.entries
    ensures forall a :: a in log.entries && a !in old(log.entries) ==> fresh(a) && a.id == None && a.eventTime == now
    ensures log.DistinctFrom(|old(log.entries)|, old(log.entries))
  {
    var error := AuditEntityChanges(log, schema, Event(fieldNames, oldState, state, id), toStr, now);
    veto := if error.Some? then Err(error.value) else Ok(false);
  }

  /** onPreDelete: audits the deleted state against no new state and never
      vetoes the delete; an exception is the Err result. */
  method OnPreDelete<V(==)>(log: AuditLog, schema: EntitySchema, fieldNames: Option<seq<string>>,
                            deletedState: Option<seq<Option<V>>>, id: Id,
                            toStr: V -> string, now: int) returns (veto: Result<bool, AuditError>)
    modifies log
    ensures var t := Audit(schema, Event(fieldNames, deletedState, None, id), toStr);
      veto == (if t.error.Some? then Err(t.error.value) else Ok(false)) &&
      log.SavedFrom(|old(log.entries)|, t.rows)
    ensures old(log.entries) <= log.entries
    ensures forall a :: a in log.entries && a !in old(log.entries) ==> fresh(a) && a.id == None && a.eventTime == now
    ensures log.DistinctFrom(|old(log.entries)|, old(log.entries))
  {
    var error := AuditEntityChanges(log, schema, Event(fieldNames, deletedState, None, id), toStr, now);
    veto := if error.Some? then Err(error.value) else Ok(false);
  }
}
