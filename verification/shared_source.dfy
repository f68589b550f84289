/** The local data source seen as the shared, mutable array it really is:
    `options.data` is one array object that an embedding widget also holds
    (a nested admin edits its parent record's sub-array this way). Every
    operation changes that object's contents and never replaces it.
 */
module SharedSource {
  import opened JsValues
  import opened Scans
  import LocalStore

  /** The array object `options.data`, shared with whoever embeds the widget. */
  class SharedCollection {
    var items: seq<Value>

    constructor(items: seq<Value>)
      ensures this.items == items
    {
      this.items := items;
    }
  }

  /** A local-mode widget's data source: every operation changes the
      contents of the one shared collection and never swaps it for another,
      so an embedding widget that holds the same reference sees the change. */
  class LocalSource {
    var data: SharedCollection?
    var tempId: nat
    const idColumn: string

    constructor(data: SharedCollection?, idColumn: string)
      ensures this.data == data && this.idColumn == idColumn
      ensures this.tempId == if data == null then 1 else LocalStore.CounterAfter(data.items, idColumn)
    {
      this.data := data;
      this.tempId := if data == null then 1 else LocalStore.CounterAfter(data.items, idColumn);
      this.idColumn := idColumn;
    }

    method RefreshData()
      modifies this
      ensures old(data) != null ==> data == old(data) && data.items == old(data.items)
      ensures old(data) == null ==> data != null && fresh(data) && data.items == []
      ensures tempId == old(tempId)
    {
      if data == null {
        data := new SharedCollection([]);
      }
    }

    method Create(datum: Record) returns (stamped: Record)
      requires data != null
      modifies this, data
      ensures data == old(data)
      ensures var r := LocalStore.Create(LocalStore.Store(Some(old(data.items)), old(tempId)), idColumn, datum);
              stamped == r.datum && data.items == r.store.data.value && tempId == r.store.tempId
    {
      var r := LocalStore.Create(LocalStore.Store(Some(data.items), tempId), idColumn, datum);
      data.items := r.store.data.value;
      tempId := r.store.tempId;
      stamped := r.datum;
    }

    method Remove(datum: Record) returns (threw: bool)
      requires data != null
      modifies data
      ensures data == old(data)
      ensures threw <==> FirstWhere(old(data.items), LocalStore.SameId(idColumn, datum)).Thrown?
      ensures FirstWhere(old(data.items), LocalStore.SameId(idColumn, datum)) == Ok(None) ==> data.items == old(data.items)
      ensures forall k :: FirstWhere(old(data.items), LocalStore.SameId(idColumn, datum)) == Ok(Some(k)) ==>
                k < |old(data.items)| && data.items == old(data.items)[..k] + old(data.items)[k + 1..]
      ensures threw ==> data.items == old(data.items)
    {
      var r := LocalStore.Remove(LocalStore.Store(Some(data.items), tempId), idColumn, datum);
      threw := r.Thrown?;
      if r.Ok? {
        data.items := r.value.data.value;
      }
    }

    method Rank(order: seq<Value>) returns (threw: bool)
      requires data != null
      modifies data
      ensures data == old(data)
      ensures threw <==> !Readable(old(data.items))
      ensures !threw ==> data.items == LocalStore.Ranked(old(data.items), idColumn, order)
      ensures threw ==> data.items == old(data.items)
    {
      var r := LocalStore.Rank(LocalStore.Store(Some(data.items), tempId), idColumn, order);
      threw := r.Thrown?;
      if r.Ok? {
        data.items := r.value.data.value;
      }
    }
  }
}
