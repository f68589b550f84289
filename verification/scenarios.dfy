/** A widget in local mode over one required text column `title`, followed
    through a create and an edit: the new record is stamped and listed, and
    blanking the title is refused, yet the collection already holds the
    blank title because the edited record is the stored object itself.
 */
module Scenarios {
  import opened JsValues
  import opened TypeRegistry
  import opened EditSession
  import LocalStore

  function NoHtml(v: Value): Option<string>
  {
    None
  }

  const Title: Column :=
    Column("title", "text", true, false, Undefined, [], "", "", "", None)

  /** Creating a record titled Hello, then editing its title to the empty
      string. */
  method CreateThenBlankTitle()
    returns (created: SaveOutcome, listed: Result<Value>, edited: SaveOutcome, stored: Result<Value>)
    ensures created == Submitted(CreateRequest(map["title" := Str("Hello")]),
                                 EditState(map["title" := Str("Hello")], []))
    ensures listed == Ok(Str("Hello"))
    ensures edited.Rejected? && edited.flagged == [true]
    ensures stored == Ok(Str(""))
  {
    var types := Builtins(NoHtml);
    var schema := [Title];
    var store := LocalStore.RefreshData(LocalStore.Resume(None, "id"));
    assert store.data == Some([]);

    assert schema[..0] == [];
    assert types["text"].defaultValue == Str("");
    var seed := NewRecord(types, schema);
    assert NewRecord(types, []) == map[];
    assert DefaultFor(types, Title) == Str("");
    assert seed == NewRecord(types, [])["title" := DefaultFor(types, Title)];
    assert seed == map["title" := Str("")];
    var typed := map["title" := Control(Str("Hello"), false)];
    var start := EditState(seed, store.data.value);
    assert AfterReading(types, typed, Creating, start, schema, 1).datum == map["title" := Str("Hello")];
    assert Check(types, typed, Creating, start, schema, "id", 0) == Ok(false);
    created := Save(types, schema, typed, "id", Creating, start);

    var added := LocalStore.Create(store, "id", created.request.datum);
    var stamped := map["title" := Str("Hello"), "id" := Str(LocalStore.TempId(1))];
    assert added.datum == stamped;
    listed := ListCell(types, Title, added.store.data.value[0]);

    var blank := map["title" := Control(Str(""), false)];
    var reopened := EditState(added.datum, added.store.data.value);
    assert AfterReading(types, blank, Editing(0), reopened, schema, 1).datum == stamped["title" := Str("")];
    assert Check(types, blank, Editing(0), reopened, schema, "id", 0) == Ok(true);
    edited := Save(types, schema, blank, "id", Editing(0), reopened);
    stored := ListCell(types, Title, edited.state.data[0]);
  }

  function AlwaysYes(prompt: Value): bool
  {
    true
  }

  /** Deleting the only record when no column has a delete validator: the
      user is asked the default question and, on yes, local `remove` leaves
      an empty collection. */
  method DeleteOnlyRecord() returns (asked: DeleteOutcome, after: Result<LocalStore.Store>)
    ensures asked == Confirmed(Str(DefaultRemoveConfirm),
                               EditState(map["title" := Str("Hello"), "id" := Str("_temp_1")],
                                         [Obj(map["title" := Str("Hello"), "id" := Str("_temp_1")])]))
    ensures after.Ok? && after.value.data == Some([]) && after.value.tempId == 2
  {
    var types := Builtins(NoHtml);
    var schema := [Title];
    var record := map["title" := Str("Hello"), "id" := Str("_temp_1")];
    var store := LocalStore.Store(Some([Obj(record)]), 2);
    var form := map["title" := Control(Str("Hello"), false)];
    var st := EditState(record, store.data.value);
    GuardsReadOnlyValidated(types, form, Editing(0), st, schema, 1, "title");
    asked := Delete(types, schema, form, Editing(0), st, Undefined, AlwaysYes);
    ConfirmedDeleteFindsRecord(store.data.value, "id", asked.state.datum, 0);
    after := LocalStore.Remove(store, "id", asked.state.datum);
    assert store.data.value[..0] + store.data.value[0 + 1..] == [];
  }
}
