/** The local-mode data source (`options.local`): instead of calling a REST
    endpoint, `create`, `update`, `refreshData`, `remove` and `rank` act on
    the array `options.data`, which an embedding widget holds by reference.
    The pure functions and methods here compute the array's new contents;
    `LocalSource` at the end shows them applied in place to one shared
    collection object.
 */
module LocalStore {
  import opened JsValues
  import opened Scans

  /** `options.data` (`None` while it is `undefined`) and the `tempId`
      counter of one widget instance. */
  datatype Store = Store(data: Option<seq<Value>>, tempId: nat)

  /** A widget starts its counter at 1. */
  function Initial(data: Option<seq<Value>>): Store
  {
    Store(data, 1)
  }

  const TempPrefix: string := "_temp_"

  /** The identifier `create` hands out when the counter stands at `n`. */
  function TempId(n: nat): string
  {
    TempPrefix + NatToDecimal(n)
  }

  /** How code outside the widget recognises a temporary identifier. */
  function ParseTempId(s: string): Option<nat>
  {
    if |s| > |TempPrefix| && s[..|TempPrefix|] == TempPrefix && AllDigits(s[|TempPrefix|..])
    then Some(DecimalToNat(s[|TempPrefix|..]))
    else None
  }

  /** A temporary identifier is recognised, and gives back its counter value. */
  lemma TempIdRoundTrip(n: nat)
    ensures ParseTempId(TempId(n)) == Some(n)
  {
    var s := TempId(n);
    assert s[..|TempPrefix|] == TempPrefix;
    assert s[|TempPrefix|..] == NatToDecimal(n);
    DecimalRoundTrip(n);
  }

  /** `item[idColumn]` for an item that is not nullish. */
  function IdOf(item: Value, idCol: string): Value
  {
    Get(item, idCol)
  }

  /** `v` is not a temporary identifier numbered `bound` or above. */
  predicate TempNumberBelow(v: Value, bound: nat)
  {
    v.Str? && ParseTempId(v.s).Some? ==> ParseTempId(v.s).value < bound
  }

  /** The counter is ahead of every temporary identifier in the data, so the
      next one `create` hands out is new. */
  ghost predicate CounterAhead(s: Store, idCol: string)
  {
    s.data.Some? ==>
      forall i :: 0 <= i < |s.data.value| ==> TempNumberBelow(IdOf(s.data.value[i], idCol), s.tempId)
  }

  /** The number of a temporary identifier, if `v` is one. */
  function TempNumber(v: Value): Option<nat>
  {
    if v.Str? then ParseTempId(v.s) else None
  }

  /** A widget starts its counter at 1 whatever its data holds, so the
      counter is ahead of the data exactly when no item carries a temporary
      identifier numbered 1 or more. A nested admin is a new widget over its
      parent record's existing sub-array each time it is opened. */
  lemma InitialCounterAhead(data: seq<Value>, idCol: string)
    ensures CounterAhead(Initial(Some(data)), idCol) <==>
              forall i :: 0 <= i < |data| ==>
                TempNumber(IdOf(data[i], idCol)).None? || TempNumber(IdOf(data[i], idCol)).value == 0
  {
  }

  /** One past the largest temporary-identifier number in the data, and at
      least 1. */
  function CounterAfter(data: seq<Value>, idCol: string): (n: nat)
    ensures n >= 1
    ensures forall i :: 0 <= i < |data| ==> TempNumberBelow(IdOf(data[i], idCol), n)
    ensures (forall i :: 0 <= i < |data| ==> TempNumberBelow(IdOf(data[i], idCol), 1)) ==> n == 1
  {
    if |data| == 0 then 1
    else
      var init := data[..|data| - 1];
      var m := CounterAfter(init, idCol);
      assert forall i :: 0 <= i < |init| ==> init[i] == data[i];
      match TempNumber(IdOf(data[|data| - 1], idCol))
      case Some(k) => if k >= m then k + 1 else m
      case None => m
  }

  /** A widget that starts its counter past the temporary identifiers
      already in its data. It starts at 1, as the source does, whenever the
      data holds none. */
  function Resume(data: Option<seq<Value>>, idCol: string): (s: Store)
    ensures s.data == data && s.tempId >= 1
    ensures CounterAhead(s, idCol)
    ensures data.None? || CounterAhead(Initial(data), idCol) ==> s == Initial(data)
  {
    Store(data, if data.None? then 1 else CounterAfter(data.value, idCol))
  }

  /** A nested admin reopened over a sub-array that already holds
      `_temp_1` hands out `_temp_1` again, and a later `remove` of the new
      record takes out the old one, which comes first. */
  lemma ReopenedAdminRepeatsId()
    ensures var prior := Obj(map["id" := Str(TempId(1))]);
            var s := Initial(Some([prior]));
            var r := Create(s, "id", map[]);
            && !CounterAhead(s, "id")
            && Field(r.datum, "id") == IdOf(prior, "id")
            && FirstWhere(r.store.data.value, SameId("id", r.datum)) == Ok(Some(0))
  {
    var prior := Obj(map["id" := Str(TempId(1))]);
    var s := Initial(Some([prior]));
    TempIdRoundTrip(1);
    assert !TempNumberBelow(IdOf(prior, "id"), 1);
    var r := Create(s, "id", map[]);
    FirstWhereStopsAt(r.store.data.value, SameId("id", r.datum), 0);
  }

  /** Started with `Resume`, a widget hands out an identifier that no item
      of its data carries, however often it is reopened. */
  lemma ResumedCreateIsFresh(data: seq<Value>, idCol: string, datum: Record)
    ensures var s := Resume(Some(data), idCol);
            forall i :: 0 <= i < |data| ==> IdOf(data[i], idCol) != Field(Create(s, idCol, datum).datum, idCol)
  {
    CreateKeepsCounterAhead(Resume(Some(data), idCol), idCol, datum);
  }

  /** What `create` passes on: the new store and the stamped datum. */
  datatype Created = Created(store: Store, datum: Record)

  /** Local `create`: stamps the datum with the next temporary identifier,
      advances the counter and appends the datum. It always succeeds. The
      widget has always initialised `options.data` before it can call this. */
  function Create(s: Store, idCol: string, datum: Record): (r: Created)
    requires s.data.Some?
    ensures Field(r.datum, idCol) == Str(TempId(s.tempId))
    ensures forall k :: k != idCol ==> Field(r.datum, k) == Field(datum, k)
    ensures r.store.tempId == s.tempId + 1
    ensures r.store.data.Some? && |r.store.data.value| == |s.data.value| + 1
    ensures r.store.data.value[..|s.data.value|] == s.data.value
    ensures r.store.data.value[|s.data.value|] == Obj(r.datum)
  {
    var stamped := datum[idCol := Str(TempId(s.tempId))];
    Created(Store(Some(s.data.value + [Obj(stamped)]), s.tempId + 1), stamped)
  }

  /** `create` keeps the counter ahead of the data, and the identifier it
      hands out belongs to no item already stored. */
  lemma CreateKeepsCounterAhead(s: Store, idCol: string, datum: Record)
    requires s.data.Some? && CounterAhead(s, idCol)
    ensures forall i :: 0 <= i < |s.data.value| ==> IdOf(s.data.value[i], idCol) != Str(TempId(s.tempId))
    ensures CounterAhead(Create(s, idCol, datum).store, idCol)
  {
    TempIdRoundTrip(s.tempId);
    var r := Create(s, idCol, datum);
    var n := |s.data.value|;
    forall i | 0 <= i < |r.store.data.value|
      ensures TempNumberBelow(IdOf(r.store.data.value[i], idCol), r.store.tempId)
    {
      if i < n {
        assert r.store.data.value[i] == s.data.value[i];
      }
    }
  }

  /** Two `create` calls in a row hand out different identifiers. */
  lemma SuccessiveCreatesDiffer(s: Store, idCol: string, first: Record, second: Record)
    requires s.data.Some?
    ensures var r1 := Create(s, idCol, first);
            var r2 := Create(r1.store, idCol, second);
            Field(r1.datum, idCol) != Field(r2.datum, idCol)
  {
    TempIdRoundTrip(s.tempId);
    TempIdRoundTrip(s.tempId + 1);
  }

  /** Local `refreshData`: creates an empty collection when there is none,
      and otherwise leaves the collection alone. */
  function RefreshData(s: Store): (r: Store)
    ensures r.data.Some?
    ensures s.data.Some? ==> r == s
    ensures s.data.None? ==> r.data.value == [] && r.tempId == s.tempId
  {
    if s.data.None? then s.(data := Some([])) else s
  }

  /** The test in the search loop of `remove`: `item[idColumn] === datum[idColumn]`. */
  function SameId(idCol: string, datum: Record): Value -> bool
  {
    item => IdOf(item, idCol) == Field(datum, idCol)
  }

  /** The search loop of local `remove`: stops at the first item carrying
      the datum's identifier; reading the identifier of a nullish item throws. */
  method FindById(data: seq<Value>, idCol: string, datum: Record) returns (r: Result<Option<nat>>)
    ensures r == FirstWhere(data, SameId(idCol, datum))
  {
    var p := SameId(idCol, datum);
    var index := 0;
    while index < |data|
      invariant 0 <= index <= |data|
      invariant PassesOver(data, p, index)
    {
      if Nullish(data[index]) {
        FirstWhereThrowsAt(data, p, index);
        return Thrown;
      }
      if p(data[index]) {
        FirstWhereStopsAt(data, p, index);
        return Ok(Some(index));
      }
      PassesOverNext(data, p, index);
      index := index + 1;
    }
    assert PassesOver(data, p, |data|);
    r := Ok(None);
  }

  /** The shifting loop of local `remove`: moves every item after `index` one
      place left, then shortens the array by one. */
  method ShiftOut(data: seq<Value>, index: nat) returns (a: seq<Value>)
    requires index < |data|
    ensures a == data[..index] + data[index + 1..]
  {
    a := data;
    var i := index + 1;
    while i < |a|
      invariant index + 1 <= i <= |data|
      invariant |a| == |data|
      invariant a[..index] == data[..index]
      invariant forall m :: index <= m < i - 1 ==> a[m] == data[m + 1]
      invariant a[i - 1..] == data[i - 1..]
    {
      a := a[i - 1 := a[i]];
      i := i + 1;
    }
    a := a[..|a| - 1];
  }

  /** Local `remove`: takes out the first item carrying the datum's
      identifier. With no such item the data is left as it was; a nullish item
      reached before the match throws before anything moves. */
  method Remove(s: Store, idCol: string, datum: Record) returns (r: Result<Store>)
    requires s.data.Some?
    ensures r.Thrown? <==> FirstWhere(s.data.value, SameId(idCol, datum)).Thrown?
    ensures FirstWhere(s.data.value, SameId(idCol, datum)) == Ok(None) ==> r == Ok(s)
    ensures forall k :: FirstWhere(s.data.value, SameId(idCol, datum)) == Ok(Some(k)) ==>
              k < |s.data.value| &&
              r == Ok(s.(data := Some(s.data.value[..k] + s.data.value[k + 1..])))
  {
    var found := FindById(s.data.value, idCol, datum);
    match found
    case Thrown =>
      r := Thrown;
    case Ok(None) =>
      r := Ok(s);
    case Ok(Some(k)) =>
      var rest := ShiftOut(s.data.value, k);
      r := Ok(s.(data := Some(rest)));
  }

  /** What taking out position `k` does: one item fewer, the others kept in
      their relative order, and exactly the one item gone from the contents. */
  lemma {:induction false} RemovedSlice(data: seq<Value>, k: nat)
    requires k < |data|
    ensures |data[..k] + data[k + 1..]| == |data| - 1
    ensures forall i :: 0 <= i < |data| - 1 ==>
              (data[..k] + data[k + 1..])[i] == (if i < k then data[i] else data[i + 1])
    ensures multiset(data[..k] + data[k + 1..]) + multiset{data[k]} == multiset(data)
  {
    assert data == data[..k] + [data[k]] + data[k + 1..];
  }

  /** Identifiers are unique across the collection. */
  ghost predicate UniqueIds(data: seq<Value>, idCol: string)
  {
    forall i, j :: 0 <= i < j < |data| ==> IdOf(data[i], idCol) != IdOf(data[j], idCol)
  }

  /** With unique identifiers, after `remove` finds its item no item carries
      the removed identifier, and every other item is still there. */
  lemma RemoveDropsOnlyThatId(data: seq<Value>, idCol: string, datum: Record, k: nat)
    requires UniqueIds(data, idCol)
    requires FirstWhere(data, SameId(idCol, datum)) == Ok(Some(k))
    ensures forall x :: x in data[..k] + data[k + 1..] ==> IdOf(x, idCol) != Field(datum, idCol)
    ensures forall i :: 0 <= i < |data| && i != k ==> data[i] in data[..k] + data[k + 1..]
  {
    var rest := data[..k] + data[k + 1..];
    RemovedSlice(data, k);
    assert SameId(idCol, datum)(data[k]);
    assert IdOf(data[k], idCol) == Field(datum, idCol);
    forall x | x in rest
      ensures IdOf(x, idCol) != Field(datum, idCol)
    {
      var i :| 0 <= i < |rest| && rest[i] == x;
      if i < k {
        assert IdOf(data[i], idCol) != IdOf(data[k], idCol);
      } else {
        assert IdOf(data[k], idCol) != IdOf(data[i + 1], idCol);
      }
    }
    forall i | 0 <= i < |data| && i != k
      ensures data[i] in rest
    {
      if i < k {
        assert rest[i] == data[i];
      } else {
        assert rest[i - 1] == data[i];
      }
    }
  }

  /** The property name `_.groupBy` files an item under: `String(item[idColumn])`. */
  function KeyOf(item: Value, idCol: string): string
  {
    ToText(IdOf(item, idCol))
  }

  function HasKey(idCol: string, key: string): Value -> bool
  {
    item => KeyOf(item, idCol) == key
  }

  /** The positions of the items filed under `key`: exactly the positions
      whose item has that key, in increasing order. */
  function Positions(data: seq<Value>, idCol: string, key: string): (ps: seq<nat>)
    ensures forall j :: 0 <= j < |ps| ==> ps[j] < |data| && KeyOf(data[ps[j]], idCol) == key
    ensures forall j, m :: 0 <= j < m < |ps| ==> ps[j] < ps[m]
    ensures forall i :: 0 <= i < |data| && KeyOf(data[i], idCol) == key ==> i in ps
  {
    if |data| == 0 then []
    else
      var rest := Positions(data[..|data| - 1], idCol, key);
      assert forall j :: 0 <= j < |rest| ==> data[..|data| - 1][rest[j]] == data[rest[j]];
      if KeyOf(data[|data| - 1], idCol) == key then rest + [|data| - 1] else rest
  }

  /** `byId[key]` where `byId = _.groupBy(data, ...)`: the items filed under
      `key`, each once per occurrence and in their order in the data; empty
      when there are none. */
  function Group(data: seq<Value>, idCol: string, key: string): (g: seq<Value>)
    ensures |g| == |Positions(data, idCol, key)|
    ensures forall j :: 0 <= j < |g| ==> g[j] == data[Positions(data, idCol, key)[j]]
    ensures forall x :: x in g <==> x in data && KeyOf(x, idCol) == key
  {
    if |data| == 0 then []
    else
      var init := data[..|data| - 1];
      var rest := Group(init, idCol, key);
      var last := data[|data| - 1];
      assert data == init + [last];
      assert forall j :: 0 <= j < |rest| ==> rest[j] == data[Positions(init, idCol, key)[j]];
      if KeyOf(last, idCol) == key then rest + [last] else rest
  }

  /** Local `rank` exactly as the source writes it: position `i` of the
      rebuilt array receives the whole `_.groupBy` entry for `order[i]`, the
      array of every record filed under it, or `undefined` when no record has
      that identifier. */
  function RankedAsWritten(data: seq<Value>, idCol: string, order: seq<Value>): (r: seq<Value>)
    ensures |r| == |order|
    ensures forall i :: 0 <= i < |order| ==>
              (r[i].Undefined? <==> forall j :: 0 <= j < |data| ==> KeyOf(data[j], idCol) != ToText(order[i]))
    ensures forall i :: 0 <= i < |order| && !r[i].Undefined? ==>
              r[i] == Arr(Group(data, idCol, ToText(order[i])))
  {
    GroupsEmptyExactlyWhenUnknown(data, idCol, order);
    seq(|order|, i requires 0 <= i < |order| =>
      var g := Group(data, idCol, ToText(order[i]));
      if |g| == 0 then Undefined else Arr(g))
  }

  /** A group is empty exactly when no item carries its key. */
  lemma GroupsEmptyExactlyWhenUnknown(data: seq<Value>, idCol: string, order: seq<Value>)
    ensures forall i :: 0 <= i < |order| ==>
              (|Group(data, idCol, ToText(order[i]))| == 0 <==>
               forall j :: 0 <= j < |data| ==> KeyOf(data[j], idCol) != ToText(order[i]))
  {
    forall i | 0 <= i < |order|
      ensures |Group(data, idCol, ToText(order[i]))| == 0 <==>
              forall j :: 0 <= j < |data| ==> KeyOf(data[j], idCol) != ToText(order[i])
    {
      var g := Group(data, idCol, ToText(order[i]));
      if |g| > 0 {
        assert g[0] in g;
      }
      forall j | 0 <= j < |data| && KeyOf(data[j], idCol) == ToText(order[i])
        ensures |g| > 0
      {
        assert data[j] in g;
      }
    }
  }

  /** Local `rank` as the source writes it: `_.groupBy` throws on a nullish
      item before the array is emptied; otherwise the array is rebuilt from
      the groups. */
  method RankAsWritten(s: Store, idCol: string, order: seq<Value>) returns (r: Result<Store>)
    requires s.data.Some?
    ensures r.Ok? <==> Readable(s.data.value)
    ensures r.Ok? ==> r.value == s.(data := Some(RankedAsWritten(s.data.value, idCol, order)))
  {
    if !Readable(s.data.value) {
      return Thrown;
    }
    r := Ok(s.(data := Some(RankedAsWritten(s.data.value, idCol, order))));
  }

  /** As written, ranking records that are already in the requested order
      does not leave them in place: each one comes back wrapped in an array. */
  lemma RankAsWrittenWrapsRecords()
    ensures var rec := Obj(map["id" := Str("a")]);
            RankedAsWritten([rec], "id", [Str("a")]) == [Arr([rec])] &&
            RankedAsWritten([rec], "id", [Str("a")]) != [rec]
  {
    var rec := Obj(map["id" := Str("a")]);
    var g := Group([rec], "id", "a");
    assert rec in g;
    assert g == [rec];
  }

  /** The record `rank` evidently means to place for `key`: the first record
      filed under it, or `undefined` when there is none. */
  function Lookup(data: seq<Value>, idCol: string, key: string): (r: Value)
    requires Readable(data)
    ensures r.Undefined? ==> forall i :: 0 <= i < |data| ==> KeyOf(data[i], idCol) != key
    ensures !r.Undefined? ==>
              exists i :: 0 <= i < |data| && data[i] == r && KeyOf(r, idCol) == key &&
                          forall j :: 0 <= j < i ==> KeyOf(data[j], idCol) != key
  {
    FirstWhereReadable(data, HasKey(idCol, key));
    match FirstWhere(data, HasKey(idCol, key))
    case Ok(Some(k)) => data[k]
    case _ => Undefined
  }

  /** A record whose key no earlier record shares is the one looked up
      under that key. */
  lemma LookupFinds(data: seq<Value>, idCol: string, i: nat)
    requires Readable(data) && i < |data|
    requires forall j :: 0 <= j < i ==> KeyOf(data[j], idCol) != KeyOf(data[i], idCol)
    ensures Lookup(data, idCol, KeyOf(data[i], idCol)) == data[i]
  {
  }

  /** Local `rank` as evidently intended: position `i` receives the record
      whose identifier is `order[i]`. */
  function Ranked(data: seq<Value>, idCol: string, order: seq<Value>): (r: seq<Value>)
    requires Readable(data)
    ensures |r| == |order|
  {
    seq(|order|, i requires 0 <= i < |order| => Lookup(data, idCol, ToText(order[i])))
  }

  /** Local `rank`: files every record under its identifier, empties the
      array, then pushes one entry per identifier in `order`. Nullish items
      make `_.groupBy` throw before the array is touched. */
  method Rank(s: Store, idCol: string, order: seq<Value>) returns (r: Result<Store>)
    requires s.data.Some?
    ensures r.Ok? <==> Readable(s.data.value)
    ensures r.Ok? ==> r.value == s.(data := Some(Ranked(s.data.value, idCol, order)))
  {
    var data := s.data.value;
    var i := 0;
    while i < |data|
      invariant 0 <= i <= |data|
      invariant forall j :: 0 <= j < i ==> !Nullish(data[j])
    {
      if Nullish(data[i]) {
        return Thrown;
      }
      i := i + 1;
    }
    var rebuilt := [];
    var n := 0;
    while n < |order|
      invariant 0 <= n <= |order|
      invariant rebuilt == Ranked(data, idCol, order)[..n]
    {
      rebuilt := rebuilt + [Lookup(data, idCol, ToText(order[n]))];
      n := n + 1;
    }
    assert rebuilt == Ranked(data, idCol, order);
    r := Ok(s.(data := Some(rebuilt)));
  }

  /** Ranking three records by identifiers `[c, a, b]` yields them in that
      order. */
  lemma RankExample()
    ensures var a := Obj(map["id" := Str("a")]);
            var b := Obj(map["id" := Str("b")]);
            var c := Obj(map["id" := Str("c")]);
            Ranked([a, b, c], "id", [Str("c"), Str("a"), Str("b")]) == [c, a, b]
  {
    var a := Obj(map["id" := Str("a")]);
    var b := Obj(map["id" := Str("b")]);
    var c := Obj(map["id" := Str("c")]);
    var data := [a, b, c];
    assert KeyOf(a, "id") == "a" && KeyOf(b, "id") == "b" && KeyOf(c, "id") == "c";
    assert "a" != "b" && "a" != "c" && "b" != "c" by {
      assert "a"[0] != "b"[0] && "a"[0] != "c"[0] && "b"[0] != "c"[0];
    }
    LookupFinds(data, "id", 0);
    LookupFinds(data, "id", 1);
    LookupFinds(data, "id", 2);
    var r := Ranked(data, "id", [Str("c"), Str("a"), Str("b")]);
    assert r[0] == c && r[1] == a && r[2] == b;
    assert r == [c, a, b];
  }

  /** A numeric identifier in `order` finds the record whose string
      identifier spells it, because `_.groupBy` files items under strings. */
  lemma RankMatchesNumberToString()
    ensures var seven := Obj(map["id" := Str("7")]);
            Ranked([seven], "id", [Num(7)]) == [seven]
  {
    var seven := Obj(map["id" := Str("7")]);
    assert ToText(Num(7)) == "7";
    assert KeyOf(seven, "id") == "7";
    LookupFinds([seven], "id", 0);
    assert Ranked([seven], "id", [Num(7)])[0] == seven;
  }

  /** Keys are unique across the data. */
  ghost predicate UniqueKeys(data: seq<Value>, idCol: string)
  {
    forall i, j :: 0 <= i < j < |data| ==> KeyOf(data[i], idCol) != KeyOf(data[j], idCol)
  }

  /** `order` lists every record's key exactly once. */
  ghost predicate ListsEveryKeyOnce(data: seq<Value>, idCol: string, order: seq<Value>)
  {
    && |order| == |data|
    && (forall a, b :: 0 <= a < b < |order| ==> ToText(order[a]) != ToText(order[b]))
    && (forall a :: 0 <= a < |order| ==> exists i :: 0 <= i < |data| && KeyOf(data[i], idCol) == ToText(order[a]))
  }

  ghost predicate Distinct(s: seq<Value>)
  {
    forall i, j :: 0 <= i < j < |s| ==> s[i] != s[j]
  }

  lemma {:induction false} DistinctSetSize(s: seq<Value>)
    requires Distinct(s)
    ensures |set x | x in s| == |s|
    ensures forall x :: multiset(s)[x] == (if x in s then 1 else 0)
  {
    if |s| > 0 {
      var init := s[..|s| - 1];
      var last := s[|s| - 1];
      assert s == init + [last];
      assert Distinct(init);
      DistinctSetSize(init);
      assert last !in init;
      assert (set x | x in s) == (set x | x in init) + {last};
    }
  }

  lemma SubsetOfSameSize(a: set<Value>, b: set<Value>)
    requires a <= b && |a| == |b|
    ensures a == b
  {
    assert |b - a| == |b| - |a|;
  }

  /** When identifiers are unique and `order` names every record once, `rank`
      only reorders: the rebuilt array holds exactly the records it held
      before. */
  lemma RankPermutes(data: seq<Value>, idCol: string, order: seq<Value>)
    requires Readable(data) && UniqueKeys(data, idCol) && ListsEveryKeyOnce(data, idCol, order)
    ensures multiset(Ranked(data, idCol, order)) == multiset(data)
  {
    var r := Ranked(data, idCol, order);
    forall a | 0 <= a < |r|
      ensures r[a] in data && KeyOf(r[a], idCol) == ToText(order[a])
    {
      var i :| 0 <= i < |data| && KeyOf(data[i], idCol) == ToText(order[a]);
      assert r[a] == Lookup(data, idCol, ToText(order[a]));
    }
    assert Distinct(data) by {
      forall i, j | 0 <= i < j < |data|
        ensures data[i] != data[j]
      {
        assert KeyOf(data[i], idCol) != KeyOf(data[j], idCol);
      }
    }
    assert Distinct(r) by {
      forall a, b | 0 <= a < b < |r|
        ensures r[a] != r[b]
      {
        assert ToText(order[a]) != ToText(order[b]);
      }
    }
    DistinctSetSize(data);
    DistinctSetSize(r);
    var sr := set x | x in r;
    var sd := set x | x in data;
    SubsetOfSameSize(sr, sd);
    assert forall x :: multiset(r)[x] == multiset(data)[x] by {
      forall x
        ensures multiset(r)[x] == multiset(data)[x]
      {
        assert x in r <==> x in sr;
        assert x in data <==> x in sd;
      }
    }
  }

  /** Items with no string identifier (arrays, `undefined`) and items already
      in the data leave the counter ahead. */
  lemma KeepsCounterAhead(s: Store, idCol: string, items: seq<Value>)
    requires s.data.Some? && CounterAhead(s, idCol)
    requires forall i :: 0 <= i < |items| ==> items[i] in s.data.value || !IdOf(items[i], idCol).Str?
    ensures CounterAhead(s.(data := Some(items)), idCol)
  {
    forall i | 0 <= i < |items|
      ensures TempNumberBelow(IdOf(items[i], idCol), s.tempId)
    {
      if items[i] in s.data.value {
        var j :| 0 <= j < |s.data.value| && s.data.value[j] == items[i];
      }
    }
  }

  /** Taking out one item keeps the counter ahead. */
  lemma RemoveKeepsCounterAhead(s: Store, idCol: string, k: nat)
    requires s.data.Some? && CounterAhead(s, idCol) && k < |s.data.value|
    ensures CounterAhead(s.(data := Some(s.data.value[..k] + s.data.value[k + 1..])), idCol)
  {
    var data := s.data.value;
    RemovedSlice(data, k);
    var rest := data[..k] + data[k + 1..];
    forall i | 0 <= i < |rest|
      ensures rest[i] in data
    {
      if i < k { assert rest[i] == data[i]; } else { assert rest[i] == data[i + 1]; }
    }
    KeepsCounterAhead(s, idCol, rest);
  }

  /** Rank as written leaves only arrays and `undefined`, which carry no
      identifier, so the counter stays ahead. */
  lemma RankAsWrittenKeepsCounterAhead(s: Store, idCol: string, order: seq<Value>)
    requires s.data.Some? && CounterAhead(s, idCol)
    ensures CounterAhead(s.(data := Some(RankedAsWritten(s.data.value, idCol, order))), idCol)
  {
    var r := RankedAsWritten(s.data.value, idCol, order);
    forall i | 0 <= i < |r|
      ensures !IdOf(r[i], idCol).Str?
    {
      assert r[i].Undefined? || r[i].Arr?;
    }
    KeepsCounterAhead(s, idCol, r);
  }

  /** The corrected rank places only stored records or `undefined`, so the
      counter stays ahead. */
  lemma RankKeepsCounterAhead(s: Store, idCol: string, order: seq<Value>)
    requires s.data.Some? && CounterAhead(s, idCol) && Readable(s.data.value)
    ensures CounterAhead(s.(data := Some(Ranked(s.data.value, idCol, order))), idCol)
  {
    var data := s.data.value;
    var r := Ranked(data, idCol, order);
    forall i | 0 <= i < |r|
      ensures r[i] in data || !IdOf(r[i], idCol).Str?
    {
      assert r[i] == Lookup(data, idCol, ToText(order[i]));
    }
    KeepsCounterAhead(s, idCol, r);
  }

  /** `remove` and both forms of `rank` keep the counter ahead of the data,
      so a later `create` still hands out a new identifier. */
  lemma RemoveAndRankKeepCounterAhead(s: Store, idCol: string, datum: Record, order: seq<Value>)
    requires s.data.Some? && CounterAhead(s, idCol)
    ensures forall k :: FirstWhere(s.data.value, SameId(idCol, datum)) == Ok(Some(k)) ==>
              k < |s.data.value| &&
              CounterAhead(s.(data := Some(s.data.value[..k] + s.data.value[k + 1..])), idCol)
    ensures CounterAhead(s.(data := Some(RankedAsWritten(s.data.value, idCol, order))), idCol)
    ensures Readable(s.data.value) ==> CounterAhead(s.(data := Some(Ranked(s.data.value, idCol, order))), idCol)
  {
    forall k | FirstWhere(s.data.value, SameId(idCol, datum)) == Ok(Some(k))
      ensures k < |s.data.value| &&
              CounterAhead(s.(data := Some(s.data.value[..k] + s.data.value[k + 1..])), idCol)
    {
      RemoveKeepsCounterAhead(s, idCol, k);
    }
    RankAsWrittenKeepsCounterAhead(s, idCol, order);
    if Readable(s.data.value) {
      RankKeepsCounterAhead(s, idCol, order);
    }
  }
}
