/** The left-to-right scan that the widget performs in three places: the
    search loop of the local `remove`, `_.any` in `isDuplicate` and `_.find`
    in the select summary. In each, the test first reads a property of the
    item, so a `null` or `undefined` item reached before any match throws.
 */
module Scans {
  import opened JsValues

  /** Every item's properties can be read. `_.groupBy` reads every item's
      identifier, so it throws unless the data is readable. */
  predicate Readable(items: seq<Value>)
  {
    forall i :: 0 <= i < |items| ==> !Nullish(items[i])
  }

  /** No item before position `i` is nullish or passes `p`: the scan gets
      past all of them. */
  ghost predicate PassesOver(items: seq<Value>, p: Value -> bool, i: nat)
    requires i <= |items|
  {
    forall j :: 0 <= j < i ==> !Nullish(items[j]) && !p(items[j])
  }

  /** Position of the first item that passes `p`, or `None` when the scan
      gets to the end; `Thrown` when it reaches a nullish item first. */
  function FirstWhere(items: seq<Value>, p: Value -> bool): (r: Result<Option<nat>>)
    ensures r.Ok? && r.value.Some? ==>
              && r.value.value < |items|
              && !Nullish(items[r.value.value])
              && p(items[r.value.value])
              && PassesOver(items, p, r.value.value)
    ensures r == Ok(None) <==> PassesOver(items, p, |items|)
    ensures r.Thrown? <==>
              exists i :: 0 <= i < |items| && Nullish(items[i]) && PassesOver(items, p, i)
  {
    if |items| == 0 then Ok(None)
    else if Nullish(items[0]) then Thrown
    else if p(items[0]) then Ok(Some(0))
    else
      var rest := FirstWhere(items[1..], p);
      assert forall j :: 1 <= j <= |items| ==>
          (PassesOver(items, p, j) <==> PassesOver(items[1..], p, j - 1));
      match rest
      case Thrown =>
        assert forall i :: 0 <= i < |items| - 1 && Nullish(items[1..][i]) ==> Nullish(items[i + 1]);
        Thrown
      case Ok(None) => Ok(None)
      case Ok(Some(k)) => Ok(Some(k + 1))
  }

  /** A scan over items that are all readable never throws, and finds a
      position exactly when some item passes. */
  lemma FirstWhereReadable(items: seq<Value>, p: Value -> bool)
    requires Readable(items)
    ensures FirstWhere(items, p).Ok?
    ensures FirstWhere(items, p).value.Some? <==> exists i :: 0 <= i < |items| && p(items[i])
  {
    var r := FirstWhere(items, p);
    if r.Ok? && r.value.None? {
      assert PassesOver(items, p, |items|);
    }
  }

  /** The scan stops at the first readable item that passes. */
  lemma FirstWhereStopsAt(items: seq<Value>, p: Value -> bool, i: nat)
    requires i < |items| && PassesOver(items, p, i)
    requires !Nullish(items[i]) && p(items[i])
    ensures FirstWhere(items, p) == Ok(Some(i))
  {
  }

  /** The scan throws at the first nullish item it reaches. */
  lemma FirstWhereThrowsAt(items: seq<Value>, p: Value -> bool, i: nat)
    requires i < |items| && PassesOver(items, p, i) && Nullish(items[i])
    ensures FirstWhere(items, p).Thrown?
  {
  }

  /** Getting past one more readable, failing item. */
  lemma PassesOverNext(items: seq<Value>, p: Value -> bool, i: nat)
    requires i < |items| && PassesOver(items, p, i)
    requires !Nullish(items[i]) && !p(items[i])
    ensures PassesOver(items, p, i + 1)
  {
  }
}
