/** The column type registry `options.types`: for each type name, how a value
    is summarised in the list (`listText`), how an edited control is read back
    (`getValue`, or jQuery's `.val()` when absent), the value a new record
    starts with (`defaultValue`), and whether the control writes into the
    record by itself (`selfUpdating`). Built-in entries are merged under
    whatever the caller supplies.
 */
module TypeRegistry {
  import opened JsValues
  import opened Scans

  /** One schema entry. `required` and `unique` hold the truthiness of the
      source's fields; an absent `defaultValue` is `Undefined`; absent
      `choices` behave as an empty list; an absent `choiceLabel` or
      `choiceValue` is the empty string, which the source treats the same
      way. `V` is the type of the delete validator (see `Column`). */
  datatype ColumnOf<V> = Column(
    name: string,
    typeName: string,
    required: bool,
    unique: bool,
    defaultValue: Value,
    choices: seq<Value>,
    choiceLabel: string,
    choiceValue: string,
    labelColumn: string,
    deleteValidator: Option<V>)

  /** A schema entry as a delete validator sees it: a datatype cannot hold
      functions that take the datatype itself, so the validators it receives
      with the schema are reduced to whether they are present. */
  type ColumnSpec = ColumnOf<()>

  /** `column.deleteValidator(datum, schema, columnName)`. */
  type DeleteValidator = (Record, seq<ColumnSpec>, string) -> Value

  type Column = ColumnOf<DeleteValidator>

  function SpecOf(c: Column): ColumnSpec
  {
    Column(c.name, c.typeName, c.required, c.unique, c.defaultValue, c.choices,
           c.choiceLabel, c.choiceValue, c.labelColumn,
           if c.deleteValidator.Some? then Some(()) else None)
  }

  function SpecsOf(schema: seq<Column>): seq<ColumnSpec>
  {
    seq(|schema|, i requires 0 <= i < |schema| => SpecOf(schema[i]))
  }

  /** The state of a rendered form control: what jQuery's `.val()` returns
      for it, and its DOM `checked` flag. */
  datatype Control = Control(val: Value, checked: bool)

  type ListText = (Column, Value) -> Result<Value>
  type GetValue = (Column, Control) -> Value

  /** One entry of `options.types`. A function the entry lacks is `None`; a
      plain field it lacks is `Undefined`. */
  datatype TypeEntry = TypeEntry(
    listText: Option<ListText>,
    getValue: Option<GetValue>,
    defaultValue: Value,
    selfUpdating: Value)

  /** Summaries are cut to this many characters. */
  const SummaryLength: nat := 80

  /** `s.substr(0, n)`. */
  function Prefix(s: string, n: nat): (r: string)
    ensures |r| == if |s| < n then |s| else n
    ensures r <= s
  {
    if |s| < n then s else s[..n]
  }

  /** text and readOnly: the value itself. */
  function RawSummary(c: Column, v: Value): Result<Value>
  {
    Ok(v)
  }

  /** textarea: `val.substr(0, 80)`, which only strings support. */
  function TextareaSummary(c: Column, v: Value): (r: Result<Value>)
    ensures r.Ok? <==> v.Str?
    ensures r.Ok? ==> r.value.Str? && r.value.s <= v.s && |r.value.s| <= SummaryLength
    ensures r.Ok? && |v.s| <= SummaryLength ==> r.value == v
    ensures r.Ok? && |v.s| > SummaryLength ==> |r.value.s| == SummaryLength
  {
    if v.Str? then Ok(Str(Prefix(v.s, SummaryLength))) else Thrown
  }

  /** richtext: the text of the value parsed as HTML, cut to 80 characters,
      or the empty string when parsing throws. The HTML parser belongs to the
      browser and is the parameter `htmlText`. */
  function RichtextSummary(htmlText: Value -> Option<string>, c: Column, v: Value): (r: Result<Value>)
    ensures r.Ok? && r.value.Str? && |r.value.s| <= SummaryLength
    ensures htmlText(v).None? ==> r.value.s == ""
    ensures htmlText(v).Some? ==> r.value.s <= htmlText(v).value
    ensures htmlText(v).Some? && |htmlText(v).value| <= SummaryLength ==> r.value.s == htmlText(v).value
    ensures htmlText(v).Some? && |htmlText(v).value| > SummaryLength ==> |r.value.s| == SummaryLength
  {
    match htmlText(v)
    case Some(text) => Ok(Str(Prefix(text, SummaryLength)))
    case None => Ok(Str(""))
  }

  /** checkbox: `Yes` for a truthy value, `No` otherwise. */
  function CheckboxSummary(c: Column, v: Value): (r: Result<Value>)
    ensures r.Ok? && r.value.Str?
    ensures r.value.s == "Yes" <==> Truthy(v)
    ensures r.value.s == "No" <==> !Truthy(v)
  {
    Ok(Str(if Truthy(v) then "Yes" else "No"))
  }

  /** checkbox read-back: `1` when checked, the empty string when not. */
  function CheckboxValue(c: Column, ctl: Control): (r: Value)
    ensures Truthy(r) <==> ctl.checked
    ensures r == Num(1) || r == Str("")
  {
    if ctl.checked then Num(1) else Str("")
  }

  function ChoiceLabelKey(c: Column): string
  {
    if c.choiceLabel != "" then c.choiceLabel else "label"
  }

  function ChoiceValueKey(c: Column): string
  {
    if c.choiceValue != "" then c.choiceValue else "value"
  }

  /** What each choice's value field is compared with: the value itself, or
      its own value field when the value is an object. */
  function SelectTarget(c: Column, v: Value): Value
  {
    if IsObjectTyped(v) then Get(v, ChoiceValueKey(c)) else v
  }

  function ChoiceMatches(c: Column, target: Value): Value -> bool
  {
    choice => Get(choice, ChoiceValueKey(c)) == target
  }

  /** select: the label of the first choice whose value field matches, or
      `null` when none does. A `null` value passes the `typeof` test for
      objects, so reading its value field throws once a choice is examined. */
  function SelectSummary(c: Column, v: Value): (r: Result<Value>)
    ensures r.Ok? ==> r.value.Null? || exists i :: 0 <= i < |c.choices| && r.value == Get(c.choices[i], ChoiceLabelKey(c))
    ensures r.Thrown? ==> v.Null? || exists i :: 0 <= i < |c.choices| && Nullish(c.choices[i])
    ensures v.Null? ==> (r.Thrown? <==> |c.choices| > 0)
  {
    if v.Null? then
      if |c.choices| == 0 then Ok(Null) else Thrown
    else
      SelectFromScan(c, FirstWhere(c.choices, ChoiceMatches(c, SelectTarget(c, v))))
  }

  /** The select summary of a value whose choices are all objects is the
      label of the first choice matching it, directly or through its value
      field; `choiceLabel` and `choiceValue` default to `label` and `value`. */
  lemma SelectSummaryFindsLabel(c: Column, v: Value, i: nat)
    requires !v.Null? && i < |c.choices|
    requires forall j :: 0 <= j < i ==> !Nullish(c.choices[j])
    requires Truthy(c.choices[i])
    requires Get(c.choices[i], ChoiceValueKey(c)) == SelectTarget(c, v)
    requires forall j :: 0 <= j < i ==> Get(c.choices[j], ChoiceValueKey(c)) != SelectTarget(c, v)
    ensures SelectSummary(c, v) == Ok(Get(c.choices[i], ChoiceLabelKey(c)))
    ensures c.choiceLabel == "" ==> ChoiceLabelKey(c) == "label"
    ensures c.choiceValue == "" ==> ChoiceValueKey(c) == "value"
  {
    var p := ChoiceMatches(c, SelectTarget(c, v));
    assert PassesOver(c.choices, p, i);
    FirstWhereStopsAt(c.choices, p, i);
  }

  /** With no choice matching, the select summary is `null`; a `null` value
      throws as soon as there is a choice to compare it with. */
  lemma SelectSummaryNoMatch(c: Column, v: Value)
    requires forall j :: 0 <= j < |c.choices| ==> !Nullish(c.choices[j])
    requires forall j :: 0 <= j < |c.choices| ==> Get(c.choices[j], ChoiceValueKey(c)) != SelectTarget(c, v)
    ensures !v.Null? ==> SelectSummary(c, v) == Ok(Null)
    ensures v.Null? ==> (SelectSummary(c, v).Thrown? <==> |c.choices| > 0)
  {
    var p := ChoiceMatches(c, SelectTarget(c, v));
    assert PassesOver(c.choices, p, |c.choices|);
  }

  /** `choice ? choice[labelColumn] : null` after `_.find`. */
  function SelectFromScan(c: Column, found: Result<Option<nat>>): Result<Value>
    requires found.Ok? && found.value.Some? ==> found.value.value < |c.choices|
  {
    match found
    case Thrown => Thrown
    case Ok(None) => Ok(Null)
    case Ok(Some(i)) =>
      if Truthy(c.choices[i]) then Ok(Get(c.choices[i], ChoiceLabelKey(c))) else Ok(Null)
  }

  /** The labels the admin summary collects with `_.each`: the label field of
      each sub-record (a nullish one throws), one `undefined` per character of
      a string, and none for other values. */
  function AdminLabels(c: Column, v: Value): (r: Result<seq<Value>>)
    ensures v.Arr? ==> (r.Ok? <==> forall i :: 0 <= i < |v.elems| ==> !Nullish(v.elems[i]))
    ensures v.Arr? && r.Ok? ==>
              |r.value| == |v.elems| &&
              forall i :: 0 <= i < |v.elems| ==> r.value[i] == Get(v.elems[i], c.labelColumn)
  {
    match v
    case Arr(es) =>
      if forall i :: 0 <= i < |es| ==> !Nullish(es[i])
      then Ok(seq(|es|, i requires 0 <= i < |es| => Get(es[i], c.labelColumn)))
      else Thrown
    case Str(s) => Ok(seq(|s|, _ => Undefined))
    case _ => Ok([])
  }

  /** admin: the sub-records' labels joined with ", ". */
  function AdminSummary(c: Column, v: Value): (r: Result<Value>)
    ensures r.Ok? ==> r.value.Str?
    ensures v.Arr? ==> (r.Ok? <==> forall i :: 0 <= i < |v.elems| ==> !Nullish(v.elems[i]))
  {
    match AdminLabels(c, v)
    case Ok(labels) => Ok(Str(Join(labels, ", ")))
    case Thrown => Thrown
  }

  /** The empty collection summarises to the empty string, one sub-record
      to the text of its label (empty when the label is missing), and adding
      a sub-record to a non-empty collection extends the summary by ", " and
      the new record's label. */
  lemma AdminSummaryGrows(c: Column, subs: seq<Value>, sub: Value)
    requires forall i :: 0 <= i < |subs| ==> !Nullish(subs[i])
    requires !Nullish(sub)
    ensures AdminSummary(c, Arr([])) == Ok(Str(""))
    ensures AdminSummary(c, Arr([sub])) == Ok(Str(ControlText(Get(sub, c.labelColumn))))
    ensures |subs| > 0 ==>
              AdminSummary(c, Arr(subs + [sub])) ==
              Ok(Str(AdminSummary(c, Arr(subs)).value.s + ", " + Join([Get(sub, c.labelColumn)], ", ")))
  {
    assert AdminLabels(c, Arr([sub])).value == [Get(sub, c.labelColumn)];
    var all := subs + [sub];
    var labels := AdminLabels(c, Arr(subs)).value;
    var allLabels := AdminLabels(c, Arr(all)).value;
    assert allLabels == labels + [Get(sub, c.labelColumn)];
    assert allLabels[..|allLabels| - 1] == labels;
  }

  /** The built-in type names. */
  const BuiltinNames: set<string> := {"text", "textarea", "richtext", "checkbox", "readOnly", "select", "admin"}

  /** The built-in entries. Only checkbox reads its control back itself; only
      admin updates the record by itself. */
  function Builtins(htmlText: Value -> Option<string>): (r: map<string, TypeEntry>)
    ensures r.Keys == BuiltinNames
  {
    map[
      "text" := TypeEntry(Some(RawSummary), None, Str(""), Undefined),
      "textarea" := TypeEntry(Some(TextareaSummary), None, Str(""), Undefined),
      "richtext" := TypeEntry(Some((c: Column, v: Value) => RichtextSummary(htmlText, c, v)), None, Str(""), Undefined),
      "checkbox" := TypeEntry(Some(CheckboxSummary), Some(CheckboxValue), Bool(false), Undefined),
      "readOnly" := TypeEntry(Some(RawSummary), None, Str(""), Undefined),
      "select" := TypeEntry(Some(SelectSummary), None, Undefined, Undefined),
      "admin" := TypeEntry(Some(AdminSummary), None, Arr([]), Bool(true))
    ]
  }

  /** What the built-in types start a new record with, and which of them
      update the record by themselves: an empty array for a nested admin,
      `false` for a checkbox, `undefined` for a select and the empty string
      for the text-like types; only admin is self-updating, and only
      checkbox has its own read-back. */
  lemma BuiltinEntries(htmlText: Value -> Option<string>)
    ensures Builtins(htmlText)["admin"].defaultValue == Arr([])
    ensures Builtins(htmlText)["checkbox"].defaultValue == Bool(false)
    ensures Builtins(htmlText)["select"].defaultValue == Undefined
    ensures Builtins(htmlText)["text"].defaultValue == Str("")
    ensures Builtins(htmlText)["textarea"].defaultValue == Str("")
    ensures Builtins(htmlText)["richtext"].defaultValue == Str("")
    ensures Builtins(htmlText)["readOnly"].defaultValue == Str("")
    ensures forall n :: n in Builtins(htmlText) ==>
              (Truthy(Builtins(htmlText)[n].selfUpdating) <==> n == "admin")
    ensures forall n :: n in Builtins(htmlText) ==>
              (Builtins(htmlText)[n].getValue.Some? <==> n == "checkbox")
  {
  }

  /** `_.defaults(entry, base)`: every field the caller's entry leaves
      undefined is taken from the built-in entry. */
  function Merge(user: TypeEntry, base: TypeEntry): (e: TypeEntry)
    ensures user == NoOverrides ==> e == base
    ensures user.listText.Some? ==> e.listText == user.listText
    ensures user.getValue.Some? ==> e.getValue == user.getValue
    ensures user.listText.None? ==> e.listText == base.listText
    ensures user.getValue.None? ==> e.getValue == base.getValue
    ensures user.defaultValue.Undefined? ==> e.defaultValue == base.defaultValue
    ensures user.selfUpdating.Undefined? ==> e.selfUpdating == base.selfUpdating
    ensures e.listText.Some? <==> user.listText.Some? || base.listText.Some?
    ensures e.getValue.Some? <==> user.getValue.Some? || base.getValue.Some?
    ensures !user.defaultValue.Undefined? ==> e.defaultValue == user.defaultValue
    ensures !user.selfUpdating.Undefined? ==> e.selfUpdating == user.selfUpdating
  {
    TypeEntry(
      if user.listText.Some? then user.listText else base.listText,
      if user.getValue.Some? then user.getValue else base.getValue,
      if user.defaultValue.Undefined? then base.defaultValue else user.defaultValue,
      if user.selfUpdating.Undefined? then base.selfUpdating else user.selfUpdating)
  }

  /** An empty `{}` entry. */
  const NoOverrides: TypeEntry := TypeEntry(None, None, Undefined, Undefined)

  /** `options.types` once the widget has filled in the built-in types. */
  function Registry(user: map<string, TypeEntry>, htmlText: Value -> Option<string>): (r: map<string, TypeEntry>)
    ensures r.Keys == user.Keys + BuiltinNames
    ensures forall n :: n in user && n !in BuiltinNames ==> r[n] == user[n]
    ensures forall n :: n in BuiltinNames && n !in user ==> r[n] == Builtins(htmlText)[n]
  {
    var base := Builtins(htmlText);
    map n | n in user.Keys + base.Keys ::
      if n in base then Merge(if n in user then user[n] else NoOverrides, base[n]) else user[n]
  }

  /** The registry knows the caller's types and the built-in ones. For a
      built-in type, each field the caller supplied wins and each field the
      caller left out comes from the built-in entry; the caller's other types
      are kept as given. */
  lemma RegistryPrecedence(user: map<string, TypeEntry>, htmlText: Value -> Option<string>, n: string)
    ensures n in Registry(user, htmlText) <==> n in user || n in BuiltinNames
    ensures n in user && n !in BuiltinNames ==> Registry(user, htmlText)[n] == user[n]
    ensures n in BuiltinNames ==>
              var e := Registry(user, htmlText)[n];
              var u := if n in user then user[n] else NoOverrides;
              var b := Builtins(htmlText)[n];
              && e.listText == (if u.listText.Some? then u.listText else b.listText)
              && e.getValue == (if u.getValue.Some? then u.getValue else b.getValue)
              && e.defaultValue == (if u.defaultValue.Undefined? then b.defaultValue else u.defaultValue)
              && e.selfUpdating == (if u.selfUpdating.Undefined? then b.selfUpdating else u.selfUpdating)
  {
  }

  /** `updateColumn`'s read-back: the type's `getValue`, else `.val()`. */
  function ReadBack(t: TypeEntry, c: Column, ctl: Control): Value
  {
    if t.getValue.Some? then t.getValue.value(c, ctl) else ctl.val
  }

  /** The text `.val(v)` puts into a text input or textarea. */
  function ControlText(v: Value): string
  {
    if Nullish(v) then "" else ToText(v)
  }

  /** No line feed and no carriage return anywhere in `s`. */
  predicate NoLineBreaks(s: string)
  {
    forall k :: 0 <= k < |s| ==> s[k] != '\n' && s[k] != '\r'
  }

  /** `s` without its line feeds and carriage returns: the value
      sanitisation an `<input type="text">` applies to what `.val` sets. */
  function StripLineBreaks(s: string): (r: string)
    ensures NoLineBreaks(r)
    ensures NoLineBreaks(s) ==> r == s
    ensures forall ch :: ch in r <==> ch in s && ch != '\n' && ch != '\r'
    ensures multiset(r) == multiset(s)['\n' := 0]['\r' := 0]
    ensures |r| <= |s|
  {
    if |s| == 0 then ""
    else
      var rest := StripLineBreaks(s[1..]);
      DropBreaksStep(s, rest);
      if s[0] == '\n' || s[0] == '\r' then rest else [s[0]] + rest
  }

  /** One step of `StripLineBreaks`: dropping or keeping the first
      character carries the counts of the rest over to the whole string. */
  lemma DropBreaksStep(s: string, rest: string)
    requires |s| > 0
    requires multiset(rest) == multiset(s[1..])['\n' := 0]['\r' := 0]
    requires forall ch :: ch in rest <==> ch in s[1..] && ch != '\n' && ch != '\r'
    ensures s[0] == '\n' || s[0] == '\r' ==> multiset(rest) == multiset(s)['\n' := 0]['\r' := 0]
    ensures s[0] != '\n' && s[0] != '\r' ==> multiset([s[0]] + rest) == multiset(s)['\n' := 0]['\r' := 0]
    ensures s[0] == '\n' || s[0] == '\r' ==> forall ch :: ch in rest <==> ch in s && ch != '\n' && ch != '\r'
    ensures s[0] != '\n' && s[0] != '\r' ==> forall ch :: ch in [s[0]] + rest <==> ch in s && ch != '\n' && ch != '\r'
  {
    assert s == [s[0]] + s[1..];
    assert multiset(s) == multiset{s[0]} + multiset(s[1..]);
    assert forall ch :: ch in s <==> ch == s[0] || ch in s[1..];
  }

  /** `s` with every carriage return, alone or before a line feed, turned
      into one line feed: what a textarea reads back through jQuery's
      `.val()`, which also drops any carriage return left. */
  function NormalizeNewlines(s: string): (r: string)
    ensures forall k :: 0 <= k < |r| ==> r[k] != '\r'
    ensures (forall k :: 0 <= k < |s| ==> s[k] != '\r') ==> r == s
    ensures |r| <= |s|
    decreases |s|
  {
    if |s| == 0 then ""
    else if s[0] == '\r' then
      "\n" + NormalizeNewlines(if |s| > 1 && s[1] == '\n' then s[2..] else s[1..])
    else
      assert forall k :: 0 <= k < |s[1..]| ==> s[1..][k] == s[k + 1];
      [s[0]] + NormalizeNewlines(s[1..])
  }

  /** The control the text and readOnly types render: a text input, which
      keeps the value's text without its line breaks. */
  function RenderInput(v: Value): Control
  {
    Control(Str(StripLineBreaks(ControlText(v))), false)
  }

  /** The control the textarea type renders, as `.val()` reads it back. */
  function RenderTextarea(v: Value): Control
  {
    Control(Str(NormalizeNewlines(ControlText(v))), false)
  }

  /** The control the checkbox type renders: `value="1"`, checked when the
      value is truthy. */
  function RenderCheckbox(v: Value): Control
  {
    Control(Str("1"), Truthy(v))
  }

  /** A text or readOnly input reads back as the value's text without line
      breaks, so a string without any comes back unchanged. */
  lemma InputRoundTrip(htmlText: Value -> Option<string>, c: Column, v: Value)
    ensures forall n :: n in {"text", "readOnly"} ==>
              ReadBack(Builtins(htmlText)[n], c, RenderInput(v)) == Str(StripLineBreaks(ControlText(v)))
    ensures v.Str? && NoLineBreaks(v.s) ==> ReadBack(Builtins(htmlText)["text"], c, RenderInput(v)) == v
  {
    BuiltinEntries(htmlText);
  }

  /** A line feed typed into a text input's value is lost. */
  lemma InputDropsLineFeed(htmlText: Value -> Option<string>, c: Column)
    ensures ReadBack(Builtins(htmlText)["text"], c, RenderInput(Str("a\nb"))) == Str("ab")
  {
    assert ControlText(Str("a\nb")) == "a\nb";
    StripsLineFeed();
    InputRoundTrip(htmlText, c, Str("a\nb"));
  }

  lemma StripsLineFeed()
    ensures StripLineBreaks("a\nb") == "ab"
  {
    assert "a\nb"[1..] == "\nb";
    assert "\nb"[1..] == "b";
    assert StripLineBreaks("b") == "b";
    assert StripLineBreaks("\nb") == "b";
  }

  /** A textarea reads back as the value's text with carriage returns made
      line feeds, so a string without any comes back unchanged. */
  lemma TextareaRoundTrip(htmlText: Value -> Option<string>, c: Column, v: Value)
    ensures ReadBack(Builtins(htmlText)["textarea"], c, RenderTextarea(v)) == Str(NormalizeNewlines(ControlText(v)))
    ensures v.Str? && (forall k :: 0 <= k < |v.s| ==> v.s[k] != '\r') ==>
              ReadBack(Builtins(htmlText)["textarea"], c, RenderTextarea(v)) == v
  {
    BuiltinEntries(htmlText);
  }

  /** A checkbox reads back as `1` or `''`, which keeps the value's
      truthiness and so its Yes/No summary. */
  lemma CheckboxRoundTrip(htmlText: Value -> Option<string>, c: Column, v: Value)
    ensures var back := ReadBack(Builtins(htmlText)["checkbox"], c, RenderCheckbox(v));
            && back == (if Truthy(v) then Num(1) else Str(""))
            && (Truthy(back) <==> Truthy(v))
            && CheckboxSummary(c, back) == CheckboxSummary(c, v)
  {
    BuiltinEntries(htmlText);
  }

  /** Rendering a value into its control and reading the control back: a
      text or readOnly input gives back the value's text without line
      breaks, so a string without any comes back unchanged and one with a
      line feed does not; a textarea gives back the text with carriage
      returns made line feeds; the checkbox gives back `1` or `''`, which
      keeps the value's truthiness and so its Yes/No summary. */
  lemma ControlRoundTrip(htmlText: Value -> Option<string>, c: Column, v: Value)
    ensures forall n :: n in {"text", "readOnly"} ==>
              ReadBack(Builtins(htmlText)[n], c, RenderInput(v)) == Str(StripLineBreaks(ControlText(v)))
    ensures v.Str? && NoLineBreaks(v.s) ==> ReadBack(Builtins(htmlText)["text"], c, RenderInput(v)) == v
    ensures v == Str("a\nb") ==> ReadBack(Builtins(htmlText)["text"], c, RenderInput(v)) == Str("ab")
    ensures ReadBack(Builtins(htmlText)["textarea"], c, RenderTextarea(v)) == Str(NormalizeNewlines(ControlText(v)))
    ensures v.Str? && (forall k :: 0 <= k < |v.s| ==> v.s[k] != '\r') ==>
              ReadBack(Builtins(htmlText)["textarea"], c, RenderTextarea(v)) == v
    ensures var back := ReadBack(Builtins(htmlText)["checkbox"], c, RenderCheckbox(v));
            && back == (if Truthy(v) then Num(1) else Str(""))
            && (Truthy(back) <==> Truthy(v))
            && CheckboxSummary(c, back) == CheckboxSummary(c, v)
  {
    InputRoundTrip(htmlText, c, v);
    InputDropsLineFeed(htmlText, c);
    TextareaRoundTrip(htmlText, c, v);
    CheckboxRoundTrip(htmlText, c, v);
  }

  /** One cell of the list: `options.types[column.type].listText(column,
      datum[column.name])`. Reading a field of a nullish item throws, and so
      does calling a type's missing `listText`. */
  function ListCell(types: map<string, TypeEntry>, c: Column, item: Value): (r: Result<Value>)
    requires c.typeName in types
    ensures Nullish(item) ==> r.Thrown?
    ensures types[c.typeName].listText.None? ==> r.Thrown?
  {
    match Prop(item, c.name)
    case Thrown => Thrown
    case Ok(v) =>
      match types[c.typeName].listText
      case None => Thrown
      case Some(f) => f(c, v)
  }

  /** With the built-in registry, the list shows a text or readOnly field as
      it is, a textarea field cut to its first 80 characters, and a checkbox
      field as Yes or No. */
  lemma ListCellBuiltins(htmlText: Value -> Option<string>, c: Column, fields: Record)
    ensures c.typeName in {"text", "readOnly"} ==>
              ListCell(Builtins(htmlText), c, Obj(fields)) == Ok(Field(fields, c.name))
    ensures c.typeName == "textarea" && Field(fields, c.name).Str? ==>
              ListCell(Builtins(htmlText), c, Obj(fields)) ==
              Ok(Str(Prefix(Field(fields, c.name).s, SummaryLength)))
    ensures c.typeName == "checkbox" ==>
              ListCell(Builtins(htmlText), c, Obj(fields)) ==
              Ok(Str(if Truthy(Field(fields, c.name)) then "Yes" else "No"))
  {
  }
}
