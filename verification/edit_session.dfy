/** The editor `edit(datum)` opens: a new record is seeded with defaults; on
    Save every column is read back from its control into the record
    (`updateColumn`) and checked for a missing required value and a duplicate
    unique value; on Delete only the columns carrying a delete validator are
    read back and asked whether the record may go.

    For an existing record the edited object is the very object held at its
    position in `options.data`, so every read-back also changes the stored
    collection, whether or not the save goes through. `EditState` keeps the
    edited record and the collection side by side and `Write` keeps them in
    step.
 */
module EditSession {
  import opened JsValues
  import opened Scans
  import opened TypeRegistry
  import LocalStore

  /** The registry `options.types` once defaults are merged in. */
  type Types = map<string, TypeEntry>

  /** The controls of the rendered form, by `data-column`. */
  type Form = map<string, Control>

  /** Every column names a registered type; the widget looks types up
      without checking. */
  predicate Registered(types: Types, schema: seq<Column>)
  {
    forall i :: 0 <= i < |schema| ==> schema[i].typeName in types
  }

  /** Every column has a control in the form. */
  predicate Rendered(schema: seq<Column>, form: Form)
  {
    forall i :: 0 <= i < |schema| ==> schema[i].name in form
  }

  /** `edit(false)` opens a new record; `edit(datum)` from a list row opens
      the record at position `index` of the collection. */
  datatype Session = Creating | Editing(index: nat)

  /** The record being edited and the collection `options.data`. */
  datatype EditState = EditState(datum: Record, data: seq<Value>)

  /** The collection holds the edited record where the session says. */
  predicate InBounds(session: Session, st: EditState)
  {
    session.Editing? ==> session.index < |st.data|
  }

  /** What a new record's field starts as: the column's own default unless it
      is `undefined`, else the default of the column's type. */
  function DefaultFor(types: Types, c: Column): Value
    requires c.typeName in types
  {
    if !c.defaultValue.Undefined? then c.defaultValue else types[c.typeName].defaultValue
  }

  /** No later column has the same name, so column `i` has the last word on
      its field. */
  ghost predicate LastWithName(schema: seq<Column>, i: nat)
    requires i < |schema|
  {
    forall j :: i < j < |schema| ==> schema[j].name != schema[i].name
  }

  /** Some column is called `k`. */
  ghost predicate Named(schema: seq<Column>, k: string)
  {
    exists i :: 0 <= i < |schema| && schema[i].name == k
  }

  /** The record `edit(false)` starts from: one field per column, in schema
      order, so a later column of the same name overwrites an earlier one. */
  function NewRecord(types: Types, schema: seq<Column>): Record
    requires Registered(types, schema)
    decreases |schema|
  {
    if |schema| == 0 then map[]
    else
      var c := schema[|schema| - 1];
      NewRecord(types, schema[..|schema| - 1])[c.name := DefaultFor(types, c)]
  }

  lemma InitRegistered(types: Types, schema: seq<Column>)
    requires Registered(types, schema) && |schema| > 0
    ensures Registered(types, schema[..|schema| - 1])
  {
    var init := schema[..|schema| - 1];
    forall i | 0 <= i < |init| ensures init[i].typeName in types {
      assert init[i] == schema[i];
    }
  }

  /** A new record has exactly one field per column name. */
  lemma {:induction false} NewRecordKeys(types: Types, schema: seq<Column>)
    requires Registered(types, schema)
    ensures forall k :: k in NewRecord(types, schema) <==> Named(schema, k)
    decreases |schema|
  {
    if |schema| > 0 {
      var init := schema[..|schema| - 1];
      var c := schema[|schema| - 1];
      InitRegistered(types, schema);
      NewRecordKeys(types, init);
      var r := NewRecord(types, schema);
      assert r == NewRecord(types, init)[c.name := DefaultFor(types, c)];
      forall k | k in r
        ensures Named(schema, k)
      {
        if k != c.name {
          var i :| 0 <= i < |init| && init[i].name == k;
          assert schema[i].name == k;
        } else {
          assert schema[|schema| - 1].name == k;
        }
      }
      forall k | Named(schema, k)
        ensures k in r
      {
        var i :| 0 <= i < |schema| && schema[i].name == k;
        if i < |init| {
          assert init[i].name == k;
          assert Named(init, k);
          assert k in NewRecord(types, init);
        } else {
          assert i == |schema| - 1;
        }
      }
    }
  }

  /** Each field of a new record holds the default of the last column of
      that name. */
  lemma {:induction false} NewRecordValues(types: Types, schema: seq<Column>)
    requires Registered(types, schema)
    ensures forall i :: 0 <= i < |schema| && LastWithName(schema, i) ==>
              Field(NewRecord(types, schema), schema[i].name) == DefaultFor(types, schema[i])
    decreases |schema|
  {
    if |schema| > 0 {
      var init := schema[..|schema| - 1];
      var c := schema[|schema| - 1];
      InitRegistered(types, schema);
      NewRecordValues(types, init);
      var r := NewRecord(types, schema);
      assert r == NewRecord(types, init)[c.name := DefaultFor(types, c)];
      forall i | 0 <= i < |schema| && LastWithName(schema, i)
        ensures Field(r, schema[i].name) == DefaultFor(types, schema[i])
      {
        if i < |init| {
          assert init[i] == schema[i];
          assert LastWithName(init, i);
        }
      }
    }
  }

  /** With the registry the widget builds, a column that sets no default of
      its own starts as its built-in type's default (see `BuiltinEntries`)
      unless the caller's entry overrides it; a column default always wins. */
  lemma NewRecordDefaults(user: Types, htmlText: Value -> Option<string>, schema: seq<Column>, i: nat)
    requires Registered(Registry(user, htmlText), schema)
    requires i < |schema| && LastWithName(schema, i)
    ensures var r := NewRecord(Registry(user, htmlText), schema);
            var c := schema[i];
            && c.name in r
            && (!c.defaultValue.Undefined? ==> r[c.name] == c.defaultValue)
            && (c.defaultValue.Undefined? && c.typeName in BuiltinNames &&
                (c.typeName !in user || user[c.typeName].defaultValue.Undefined?) ==>
                  r[c.name] == Builtins(htmlText)[c.typeName].defaultValue)
  {
    RegistryPrecedence(user, htmlText, schema[i].typeName);
    NewRecordKeys(Registry(user, htmlText), schema);
    NewRecordValues(Registry(user, htmlText), schema);
  }

  /** `updateColumn(datum, column)`: unless the column's type updates the
      record by itself, the field becomes what the type's `getValue` reads
      from the control, or the control's `.val()`. */
  function UpdateColumn(types: Types, form: Form, datum: Record, c: Column): (r: Record)
    requires c.typeName in types && c.name in form
    ensures forall k :: k != c.name ==> Field(r, k) == Field(datum, k)
    ensures Truthy(types[c.typeName].selfUpdating) ==> r == datum
    ensures !Truthy(types[c.typeName].selfUpdating) ==>
              Field(r, c.name) == ReadBack(types[c.typeName], c, form[c.name])
  {
    var t := types[c.typeName];
    if Truthy(t.selfUpdating) then datum
    else datum[c.name := ReadBack(t, c, form[c.name])]
  }

  /** A change to the edited record, seen through the collection as well
      when the record is one of its items. */
  function Write(session: Session, st: EditState, datum: Record): (r: EditState)
    requires InBounds(session, st)
    ensures r.datum == datum && |r.data| == |st.data| && InBounds(session, r)
    ensures session.Creating? ==> r.data == st.data
    ensures session.Editing? ==>
              r.data[session.index] == Obj(datum) &&
              forall i :: 0 <= i < |st.data| && i != session.index ==> r.data[i] == st.data[i]
  {
    if session.Creating? then EditState(datum, st.data)
    else EditState(datum, st.data[session.index := Obj(datum)])
  }

  function ReadColumn(types: Types, form: Form, session: Session, st: EditState, c: Column): EditState
    requires c.typeName in types && c.name in form && InBounds(session, st)
  {
    Write(session, st, UpdateColumn(types, form, st.datum, c))
  }

  /** The state after the save handler has read back the first `n` columns. */
  function AfterReading(types: Types, form: Form, session: Session, st: EditState,
                        schema: seq<Column>, n: nat): (r: EditState)
    requires Registered(types, schema) && Rendered(schema, form) && InBounds(session, st)
    requires n <= |schema|
    ensures InBounds(session, r) && |r.data| == |st.data|
  {
    if n == 0 then st
    else ReadColumn(types, form, session, AfterReading(types, form, session, st, schema, n - 1), schema[n - 1])
  }

  /** For an existing record, the collection holds the edited object at its
      position. */
  predicate Bound(session: Session, st: EditState)
  {
    session.Editing? ==> session.index < |st.data| && st.data[session.index] == Obj(st.datum)
  }

  /** Reading columns back never touches another item of the collection; for
      an existing record the edited object in the collection changes along
      with the record, and a new record leaves the collection as it was. */
  lemma {:induction false} ReadingKeepsCollection(types: Types, form: Form, session: Session, st: EditState,
                                                 schema: seq<Column>, n: nat)
    requires Registered(types, schema) && Rendered(schema, form) && InBounds(session, st)
    requires n <= |schema|
    ensures var r := AfterReading(types, form, session, st, schema, n);
            && (session.Creating? ==> r.data == st.data)
            && (session.Editing? ==>
                  forall i :: 0 <= i < |st.data| && i != session.index ==> r.data[i] == st.data[i])
            && (Bound(session, st) ==> Bound(session, r))
            && (Readable(st.data) ==> Readable(r.data))
  {
    if n > 0 {
      ReadingKeepsCollection(types, form, session, st, schema, n - 1);
    }
  }

  /** After reading back the first `n` columns, a field keeps its value unless
      one of those columns writes it; a column that writes it and is the last
      of its name among them leaves there what its control reads back. */
  lemma {:induction false} ReadingSetsFields(types: Types, form: Form, session: Session, st: EditState,
                                            schema: seq<Column>, n: nat, k: string)
    requires Registered(types, schema) && Rendered(schema, form) && InBounds(session, st)
    requires n <= |schema|
    ensures (forall j :: 0 <= j < n && schema[j].name == k ==> Truthy(types[schema[j].typeName].selfUpdating)) ==>
              Field(AfterReading(types, form, session, st, schema, n).datum, k) == Field(st.datum, k)
    ensures forall j :: 0 <= j < n && schema[j].name == k && !Truthy(types[schema[j].typeName].selfUpdating) &&
                        (forall m :: j < m < n ==> schema[m].name != k) ==>
              Field(AfterReading(types, form, session, st, schema, n).datum, k) ==
              ReadBack(types[schema[j].typeName], schema[j], form[k])
  {
    if n > 0 {
      ReadingSetsFields(types, form, session, st, schema, n - 1, k);
    }
  }

  /** `isDuplicate`'s test: another record (by identifier) with the same
      value in the column. */
  predicate DuplicateOf(datum: Record, c: Column, idCol: string, item: Value)
  {
    Field(datum, c.name) == Get(item, c.name) && Field(datum, idCol) != Get(item, idCol)
  }

  function Duplicates(datum: Record, c: Column, idCol: string): Value -> bool
  {
    item => DuplicateOf(datum, c, idCol, item)
  }

  /** `isDuplicate(datum, column)`: `_.any` over the collection, which throws
      if it reads a nullish item before finding a duplicate. */
  function IsDuplicate(datum: Record, c: Column, data: seq<Value>, idCol: string): (r: Result<bool>)
    ensures r.Thrown? ==> !Readable(data)
  {
    match FirstWhere(data, Duplicates(datum, c, idCol))
    case Thrown => Thrown
    case Ok(f) => Ok(f.Some?)
  }

  /** Over a readable collection `isDuplicate` answers whether some item
      shares the column's value under another identifier; an item that is the
      edited record itself is never its duplicate. */
  lemma IsDuplicateMeaning(datum: Record, c: Column, data: seq<Value>, idCol: string)
    ensures Readable(data) ==>
              var r := IsDuplicate(datum, c, data, idCol);
              r.Ok? && (r.value <==> exists i :: 0 <= i < |data| && DuplicateOf(datum, c, idCol, data[i]))
    ensures IsDuplicate(datum, c, data, idCol) == Ok(true) ==>
              exists i :: 0 <= i < |data| && data[i] != Obj(datum) && DuplicateOf(datum, c, idCol, data[i])
  {
    var p := Duplicates(datum, c, idCol);
    var found := FirstWhere(data, p);
    if Readable(data) {
      FirstWhereReadable(data, p);
    }
    if found.Ok? && found.value.Some? {
      assert !DuplicateOf(datum, c, idCol, Obj(datum));
      assert data[found.value.value] != Obj(datum);
    }
  }

  /** The save handler's two tests on one column after its read-back: a
      required column whose value is falsy, a unique column whose value
      another record shares. `Ok(true)` shows the column's arrow. */
  function Violation(c: Column, st: EditState, idCol: string): Result<bool>
  {
    var missing := c.required && !Truthy(Field(st.datum, c.name));
    if !c.unique then Ok(missing)
    else
      match IsDuplicate(st.datum, c, st.data, idCol)
      case Thrown => Thrown
      case Ok(dup) => Ok(missing || dup)
  }

  /** Over a readable collection the tests never throw, and a column is
      flagged exactly when it is required and falsy or unique and shared. */
  lemma ViolationMeaning(c: Column, st: EditState, idCol: string)
    requires Readable(st.data)
    ensures Violation(c, st, idCol).Ok?
    ensures Violation(c, st, idCol).value <==>
              || (c.required && !Truthy(Field(st.datum, c.name)))
              || (c.unique && exists i :: 0 <= i < |st.data| && DuplicateOf(st.datum, c, idCol, st.data[i]))
  {
    IsDuplicateMeaning(st.datum, c, st.data, idCol);
  }

  datatype Request = CreateRequest(datum: Record) | UpdateRequest(datum: Record)

  /** How a click on Save ends: some columns flagged and nothing sent; a
      `TypeError` from `isDuplicate`; or the record handed to `create` (new)
      or `update` (existing). */
  datatype SaveOutcome =
    | Rejected(flagged: seq<bool>, state: EditState)
    | SaveThrew(state: EditState)
    | Submitted(request: Request, state: EditState)

  /** The save handler's verdict on column `j`, taken after the columns up
      to and including `j` have been read back. */
  function Check(types: Types, form: Form, session: Session, st: EditState,
                 schema: seq<Column>, idCol: string, j: nat): Result<bool>
    requires Registered(types, schema) && Rendered(schema, form) && InBounds(session, st)
    requires j < |schema|
  {
    Violation(schema[j], AfterReading(types, form, session, st, schema, j + 1), idCol)
  }

  /** The columns before `n` were read back and checked without a throw. */
  ghost predicate CheckedWithoutThrow(types: Types, form: Form, session: Session, st: EditState,
                                     schema: seq<Column>, idCol: string, n: nat)
    requires Registered(types, schema) && Rendered(schema, form) && InBounds(session, st)
    requires n <= |schema|
  {
    forall j :: 0 <= j < n ==> Check(types, form, session, st, schema, idCol, j).Ok?
  }

  lemma CheckedNext(types: Types, form: Form, session: Session, st: EditState,
                   schema: seq<Column>, idCol: string, n: nat)
    requires Registered(types, schema) && Rendered(schema, form) && InBounds(session, st)
    requires n < |schema| && CheckedWithoutThrow(types, form, session, st, schema, idCol, n)
    requires Check(types, form, session, st, schema, idCol, n).Ok?
    ensures CheckedWithoutThrow(types, form, session, st, schema, idCol, n + 1)
  {
  }

  /** The save handler. Each column is read back and checked in schema
      order, so a column's test sees the reads of the columns before it. */
  method Save(types: Types, schema: seq<Column>, form: Form, idCol: string,
              session: Session, st: EditState) returns (out: SaveOutcome)
    requires Registered(types, schema) && Rendered(schema, form) && InBounds(session, st)
    ensures out.SaveThrew? <==> !CheckedWithoutThrow(types, form, session, st, schema, idCol, |schema|)
    ensures out.SaveThrew? ==>
              exists k :: 0 <= k < |schema| &&
                CheckedWithoutThrow(types, form, session, st, schema, idCol, k) &&
                out.state == AfterReading(types, form, session, st, schema, k + 1) &&
                Violation(schema[k], out.state, idCol).Thrown?
    ensures !out.SaveThrew? ==> out.state == AfterReading(types, form, session, st, schema, |schema|)
    ensures out.Rejected? ==>
              |out.flagged| == |schema| &&
              (forall j :: 0 <= j < |schema| ==>
                (out.flagged[j] <==>
                  Check(types, form, session, st, schema, idCol, j) == Ok(true))) &&
              exists j :: 0 <= j < |schema| && out.flagged[j]
    ensures out.Submitted? <==>
              forall j :: 0 <= j < |schema| ==>
                Check(types, form, session, st, schema, idCol, j) == Ok(false)
    ensures out.Submitted? ==>
              out.request == (if session.Creating? then CreateRequest(out.state.datum)
                              else UpdateRequest(out.state.datum))
  {
    var cur := st;
    var flags: seq<bool> := [];
    var invalid := false;
    var i := 0;
    while i < |schema|
      invariant 0 <= i <= |schema|
      invariant cur == AfterReading(types, form, session, st, schema, i)
      invariant CheckedWithoutThrow(types, form, session, st, schema, idCol, i)
      invariant |flags| == i
      invariant forall j :: 0 <= j < i ==>
                  flags[j] == Check(types, form, session, st, schema, idCol, j).value
      invariant invalid <==> exists j :: 0 <= j < i && flags[j]
    {
      cur := ReadColumn(types, form, session, cur, schema[i]);
      var v := Violation(schema[i], cur, idCol);
      assert v == Check(types, form, session, st, schema, idCol, i);
      if v.Thrown? {
        return SaveThrew(cur);
      }
      CheckedNext(types, form, session, st, schema, idCol, i);
      flags := flags + [v.value];
      invalid := invalid || v.value;
      i := i + 1;
    }
    if invalid {
      return Rejected(flags, cur);
    }
    var request := if session.Creating? then CreateRequest(cur.datum) else UpdateRequest(cur.datum);
    return Submitted(request, cur);
  }

  /** Over a readable collection the save handler's tests never throw, and
      column `j` is flagged exactly when, after its read-back, it is required
      and falsy or unique and shared with another record. */
  lemma CheckMeaning(types: Types, form: Form, session: Session, st: EditState,
                     schema: seq<Column>, idCol: string, j: nat)
    requires Registered(types, schema) && Rendered(schema, form) && InBounds(session, st)
    requires j < |schema| && Readable(st.data)
    ensures var after := AfterReading(types, form, session, st, schema, j + 1);
            var c := schema[j];
            && Check(types, form, session, st, schema, idCol, j).Ok?
            && (Check(types, form, session, st, schema, idCol, j).value <==>
                  || (c.required && !Truthy(Field(after.datum, c.name)))
                  || (c.unique && exists i :: 0 <= i < |after.data| && DuplicateOf(after.datum, c, idCol, after.data[i])))
  {
    var after := AfterReading(types, form, session, st, schema, j + 1);
    ReadingKeepsCollection(types, form, session, st, schema, j + 1);
    ViolationMeaning(schema[j], after, idCol);
  }

  /** So Save on a readable collection never ends in a `TypeError`. */
  lemma SaveThrowsOnlyOnNullishItems(types: Types, form: Form, session: Session, st: EditState,
                                     schema: seq<Column>, idCol: string)
    requires Registered(types, schema) && Rendered(schema, form) && InBounds(session, st)
    requires Readable(st.data)
    ensures CheckedWithoutThrow(types, form, session, st, schema, idCol, |schema|)
  {
    forall j | 0 <= j < |schema|
      ensures Check(types, form, session, st, schema, idCol, j).Ok?
    {
      CheckMeaning(types, form, session, st, schema, idCol, j);
    }
  }

  /** For a unique column, a record is only ever compared against others: a
      collection where no other item shares the value lets the save pass the
      test, the edited record's own entry included. */
  lemma UniqueAloneNotDuplicate(datum: Record, c: Column, data: seq<Value>, idCol: string)
    requires Readable(data)
    requires forall i :: 0 <= i < |data| ==> data[i] == Obj(datum) || Get(data[i], c.name) != Field(datum, c.name)
    ensures IsDuplicate(datum, c, data, idCol) == Ok(false)
  {
    IsDuplicateMeaning(datum, c, data, idCol);
  }

  /** The state after the delete handler has gone through the first `n`
      columns: only columns with a delete validator are read back. */
  function AfterGuards(types: Types, form: Form, session: Session, st: EditState,
                       schema: seq<Column>, n: nat): (r: EditState)
    requires Registered(types, schema) && Rendered(schema, form) && InBounds(session, st)
    requires n <= |schema|
    ensures InBounds(session, r) && |r.data| == |st.data|
  {
    if n == 0 then st
    else
      var prev := AfterGuards(types, form, session, st, schema, n - 1);
      if schema[n - 1].deleteValidator.Some? then ReadColumn(types, form, session, prev, schema[n - 1])
      else prev
  }

  /** `column.deleteValidator(datum, options.schema, column.name)` is falsy. */
  predicate Refuses(c: Column, datum: Record, schema: seq<Column>)
  {
    c.deleteValidator.Some? && !Truthy(c.deleteValidator.value(datum, SpecsOf(schema), c.name))
  }

  /** Column `j`'s validator refuses, asked after its own read-back. */
  predicate Guard(types: Types, form: Form, session: Session, st: EditState, schema: seq<Column>, j: nat)
    requires Registered(types, schema) && Rendered(schema, form) && InBounds(session, st)
    requires j < |schema|
  {
    Refuses(schema[j], AfterGuards(types, form, session, st, schema, j + 1).datum, schema)
  }

  const DefaultRemoveConfirm: string := "Are you sure you want to delete this item?"

  /** The question put to the user: `options.removeConfirm`, replaced by the
      default text when it is falsy. */
  function RemovePrompt(removeConfirm: Value): (r: Value)
    ensures Truthy(r)
    ensures Truthy(removeConfirm) ==> r == removeConfirm
    ensures !Truthy(removeConfirm) ==> r == Str(DefaultRemoveConfirm)
  {
    if Truthy(removeConfirm) then removeConfirm else Str(DefaultRemoveConfirm)
  }

  /** How a click on Delete ends: some validator refused and nothing is
      asked; the user declined the confirmation; or the record goes to
      `remove`. `prompt` is also what `options.removeConfirm` holds
      afterwards. */
  datatype DeleteOutcome =
    | Blocked(flagged: seq<bool>, state: EditState)
    | Declined(prompt: Value, state: EditState)
    | Confirmed(prompt: Value, state: EditState)

  /** The delete handler, offered only for an existing record. Every
      validator is asked, in schema order; the browser's `confirm` dialog is
      the parameter `confirm`. */
  method Delete(types: Types, schema: seq<Column>, form: Form, session: Session, st: EditState,
                removeConfirm: Value, confirm: Value -> bool) returns (out: DeleteOutcome)
    requires Registered(types, schema) && Rendered(schema, form) && InBounds(session, st)
    requires session.Editing?
    ensures out.state == AfterGuards(types, form, session, st, schema, |schema|)
    ensures out.Blocked? <==> exists j :: 0 <= j < |schema| && Guard(types, form, session, st, schema, j)
    ensures out.Blocked? ==>
              |out.flagged| == |schema| &&
              forall j :: 0 <= j < |schema| ==> (out.flagged[j] <==> Guard(types, form, session, st, schema, j))
    ensures !out.Blocked? ==>
              out.prompt == RemovePrompt(removeConfirm) && (out.Confirmed? <==> confirm(out.prompt))
  {
    var cur := st;
    var flags: seq<bool> := [];
    var invalid := false;
    var i := 0;
    while i < |schema|
      invariant 0 <= i <= |schema|
      invariant cur == AfterGuards(types, form, session, st, schema, i)
      invariant |flags| == i
      invariant forall j :: 0 <= j < i ==> (flags[j] <==> Guard(types, form, session, st, schema, j))
      invariant invalid <==> exists j :: 0 <= j < i && flags[j]
    {
      var c := schema[i];
      var refused := false;
      if c.deleteValidator.Some? {
        cur := ReadColumn(types, form, session, cur, c);
        refused := !Truthy(c.deleteValidator.value(cur.datum, SpecsOf(schema), c.name));
      }
      assert refused <==> Guard(types, form, session, st, schema, i);
      flags := flags + [refused];
      invalid := invalid || refused;
      i := i + 1;
    }
    if invalid {
      return Blocked(flags, cur);
    }
    var prompt := RemovePrompt(removeConfirm);
    if confirm(prompt) {
      return Confirmed(prompt, cur);
    }
    return Declined(prompt, cur);
  }

  /** The delete handler reads back nothing but the validated columns: a
      field no validated column writes keeps its value, and without any
      validator the record and collection are left exactly as they were. */
  lemma {:induction false} GuardsReadOnlyValidated(types: Types, form: Form, session: Session, st: EditState,
                                                  schema: seq<Column>, n: nat, k: string)
    requires Registered(types, schema) && Rendered(schema, form) && InBounds(session, st)
    requires n <= |schema|
    ensures (forall j :: 0 <= j < n && schema[j].name == k && schema[j].deleteValidator.Some? ==>
               Truthy(types[schema[j].typeName].selfUpdating)) ==>
              Field(AfterGuards(types, form, session, st, schema, n).datum, k) == Field(st.datum, k)
    ensures (forall j :: 0 <= j < n ==> schema[j].deleteValidator.None?) ==>
              AfterGuards(types, form, session, st, schema, n) == st
  {
    if n > 0 {
      GuardsReadOnlyValidated(types, form, session, st, schema, n - 1, k);
    }
  }

  /** Once the user confirms, local `remove` takes out exactly the edited
      record: it sits at its position in the collection, and with unique
      identifiers no earlier item carries its identifier. */
  lemma ConfirmedDeleteFindsRecord(data: seq<Value>, idCol: string, datum: Record, k: nat)
    requires Readable(data) && LocalStore.UniqueIds(data, idCol)
    requires k < |data| && data[k] == Obj(datum)
    ensures FirstWhere(data, LocalStore.SameId(idCol, datum)) == Ok(Some(k))
  {
    var p := LocalStore.SameId(idCol, datum);
    forall j | 0 <= j < k
      ensures !Nullish(data[j]) && !p(data[j])
    {
      assert LocalStore.IdOf(data[j], idCol) != LocalStore.IdOf(data[k], idCol);
    }
    assert PassesOver(data, p, k);
    FirstWhereStopsAt(data, p, k);
  }
}
