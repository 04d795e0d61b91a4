/**
 The refusal of arguments that would override the evaluation contract (contracts.py,
 reject_contract_overrides): a search through nested mappings and lists for a forbidden key.
 */
module ContractOverrides {
  import opened Wrappers
  import Text

  /** Arguments as they are searched; the fields of a mapping in order, their keys as `str` gives them. */
  datatype Value =
    | Scalar(text: string)
    | Mapping(fields: seq<(string, Value)>)
    | Listing(items: seq<Value>)

  const FORBIDDEN_KEYS: set<string> := {
    "contract", "contract_digest", "contract_files", "contract_id", "contract_mount", "evaluation_command",
    "evaluation_contract", "evaluation_entry_point", "evaluator", "evaluator_image", "expected_input_schema",
    "expected_output_schema"
  }

  /** `str(key).strip().lower() in FORBIDDEN_OVERRIDE_KEYS`. */
  function ForbiddenKey(lower: string -> string): string -> bool {
    (key: string) => lower(Text.Strip(key)) in FORBIDDEN_KEYS
  }

  /** The search as it is called, with no step taken yet. */
  function RejectContractOverrides(arguments: Value, lower: string -> string): Option<Path> {
    Reject(arguments, ForbiddenKey(lower), [])
  }

  /** One step of the path in the refusal: `.key` or `[index]`. */
  datatype Step = Field(key: string) | Item(index: nat)

  type Path = seq<Step>

  function Width(value: Value): nat {
    match value
    case Scalar(_) => 0
    case Mapping(fields) => |fields|
    case Listing(items) => |items|
  }

  /** reject_contract_overrides: the path of the refusal, if there is one. */
  function Reject(value: Value, forbidden: string -> bool, path: Path): Option<Path>
    decreases value, 1 + Width(value)
  {
    match value
    case Scalar(_) => None
    case Mapping(fields) => RejectFields(value, 0, forbidden, path)
    case Listing(items) => RejectItems(value, 0, forbidden, path)
  }

  /** The fields from the `i`th on. */
  function RejectFields(value: Value, i: nat, forbidden: string -> bool, path: Path): Option<Path>
    requires value.Mapping? && i <= |value.fields|
    decreases value, |value.fields| - i
  {
    if i == |value.fields| then None
    else
      var (key, child) := value.fields[i];
      if forbidden(key) then Some(path + [Field(key)])
      else
        var below := Reject(child, forbidden, path + [Field(key)]);
        if below.Some? then below else RejectFields(value, i + 1, forbidden, path)
  }

  /** The items from the `i`th on. */
  function RejectItems(value: Value, i: nat, forbidden: string -> bool, path: Path): Option<Path>
    requires value.Listing? && i <= |value.items|
    decreases value, |value.items| - i
  {
    if i == |value.items| then None
    else
      var below := Reject(value.items[i], forbidden, path + [Item(i)]);
      if below.Some? then below else RejectItems(value, i + 1, forbidden, path)
  }

  /** Following the path from the value leads to a field with a forbidden key. */
  ghost predicate LeadsToOverride(value: Value, path: Path, forbidden: string -> bool)
    decreases |path|, 0
  {
    path != [] &&
    match path[0]
    case Field(key) => value.Mapping? && exists f :: f in value.fields && f.0 == key && Ends(f, path[1..], forbidden)
    case Item(i) => value.Listing? && i < |value.items| && LeadsToOverride(value.items[i], path[1..], forbidden)
  }

  ghost predicate Ends(field: (string, Value), rest: Path, forbidden: string -> bool)
    decreases |rest|, 1
  {
    if rest == [] then forbidden(field.0) else LeadsToOverride(field.1, rest, forbidden)
  }

  /** The path of a refusal leads to an override. */
  lemma {:induction false} RefusalNamesOverride(value: Value, forbidden: string -> bool, path: Path)
    ensures var r := Reject(value, forbidden, path);
      r.Some? ==> path <= r.value && LeadsToOverride(value, r.value[|path|..], forbidden)
    decreases value, 1 + Width(value)
  {
    match value
    case Scalar(_) =>
    case Mapping(_) => FieldNamesOverride(value, 0, forbidden, path);
    case Listing(_) => ItemNamesOverride(value, 0, forbidden, path);
  }

  lemma {:induction false} FieldNamesOverride(value: Value, i: nat, forbidden: string -> bool, path: Path)
    requires value.Mapping? && i <= |value.fields|
    ensures var r := RejectFields(value, i, forbidden, path);
      r.Some? ==> path <= r.value && LeadsToOverride(value, r.value[|path|..], forbidden)
    decreases value, |value.fields| - i
  {
    if i < |value.fields| {
      var f := value.fields[i];
      var here := path + [Field(f.0)];
      assert f in value.fields;
      if forbidden(f.0) {
        assert here[|path|..] == [Field(f.0)] && Ends(f, [], forbidden);
      } else {
        RefusalNamesOverride(f.1, forbidden, here);
        FieldNamesOverride(value, i + 1, forbidden, path);
        var below := Reject(f.1, forbidden, here);
        if below.Some? {
          var rest := below.value[|here|..];
          assert below.value[|path|..] == [Field(f.0)] + rest;
          assert Ends(f, rest, forbidden);
        }
      }
    }
  }

  lemma {:induction false} ItemNamesOverride(value: Value, i: nat, forbidden: string -> bool, path: Path)
    requires value.Listing? && i <= |value.items|
    ensures var r := RejectItems(value, i, forbidden, path);
      r.Some? ==> path <= r.value && LeadsToOverride(value, r.value[|path|..], forbidden)
    decreases value, |value.items| - i
  {
    if i < |value.items| {
      var here := path + [Item(i)];
      RefusalNamesOverride(value.items[i], forbidden, here);
      ItemNamesOverride(value, i + 1, forbidden, path);
      var below := Reject(value.items[i], forbidden, here);
      if below.Some? {
        assert below.value[|path|..] == [Item(i)] + below.value[|here|..];
      }
    }
  }

  /** No override, at any depth, gets through. */
  lemma {:induction false} OverrideRefused(value: Value, forbidden: string -> bool, path: Path, way: Path)
    requires LeadsToOverride(value, way, forbidden)
    ensures Reject(value, forbidden, path).Some?
    decreases |way|
  {
    match way[0]
    case Field(key) =>
      var f :| f in value.fields && f.0 == key && Ends(f, way[1..], forbidden);
      var i :| 0 <= i < |value.fields| && value.fields[i] == f;
      if way[1..] != [] { OverrideRefused(f.1, forbidden, path + [Field(key)], way[1..]); }
      FieldsReach(value, 0, i, forbidden, path);
    case Item(i) =>
      OverrideRefused(value.items[i], forbidden, path + [Item(i)], way[1..]);
      ItemsReach(value, 0, i, forbidden, path);
  }

  lemma {:induction false} FieldsReach(value: Value, from: nat, i: nat, forbidden: string -> bool, path: Path)
    requires value.Mapping? && from <= i < |value.fields|
    requires var f := value.fields[i]; forbidden(f.0) || Reject(f.1, forbidden, path + [Field(f.0)]).Some?
    ensures RejectFields(value, from, forbidden, path).Some?
    decreases i - from
  {
    if from < i { FieldsReach(value, from + 1, i, forbidden, path); }
  }

  lemma {:induction false} ItemsReach(value: Value, from: nat, i: nat, forbidden: string -> bool, path: Path)
    requires value.Listing? && from <= i < |value.items|
    requires Reject(value.items[i], forbidden, path + [Item(i)]).Some?
    ensures RejectItems(value, from, forbidden, path).Some?
    decreases i - from
  {
    if from < i { ItemsReach(value, from + 1, i, forbidden, path); }
  }

  /** Arguments pass if and only if no path from them leads to a forbidden key. */
  lemma PassesIffNoOverride(value: Value, forbidden: string -> bool, path: Path)
    ensures Reject(value, forbidden, path).None? <==> forall way: Path :: !LeadsToOverride(value, way, forbidden)
  {
    RefusalNamesOverride(value, forbidden, path);
    if Reject(value, forbidden, path).None? {
      forall way: Path ensures !LeadsToOverride(value, way, forbidden) {
        if LeadsToOverride(value, way, forbidden) { OverrideRefused(value, forbidden, path, way); }
      }
    } else {
      assert LeadsToOverride(value, Reject(value, forbidden, path).value[|path|..], forbidden);
    }
  }

  /** As the program calls it: no key may be, but for case and surrounding white space, a forbidden one. */
  lemma ContractOverridesRefused(arguments: Value, lower: string -> string)
    ensures RejectContractOverrides(arguments, lower).None? <==>
      forall way: Path :: !LeadsToOverride(arguments, way, ForbiddenKey(lower))
  {
    PassesIffNoOverride(arguments, ForbiddenKey(lower), []);
  }

  lemma FirstKeyRefused(key: string, child: Value, forbidden: string -> bool)
    requires forbidden(key)
    ensures Reject(Listing([Mapping([(key, child)])]), forbidden, []) == Some([Item(0), Field(key)])
  {
    var inner := Mapping([(key, child)]);
    var outer := Listing([inner]);
    assert [] + [Item(0)] == [Item(0)] && [Item(0)] + [Field(key)] == [Item(0), Field(key)];
    assert Reject(inner, forbidden, [Item(0)]) == RejectFields(inner, 0, forbidden, [Item(0)]);
    assert Reject(outer, forbidden, []) == RejectItems(outer, 0, forbidden, []);
  }

  /** For instance `Evaluator` between spaces, beneath a list. */
  lemma EvaluatorRefused(lower: string -> string, key: string, child: Value)
    requires lower(Text.Strip(key)) == "evaluator"
    ensures RejectContractOverrides(Listing([Mapping([(key, child)])]), lower) == Some([Item(0), Field(key)])
  {
    FirstKeyRefused(key, child, ForbiddenKey(lower));
  }

  /** Wrapping arguments in more structure never hides an override. */
  lemma NestedStillRefused(value: Value, field: (string, Value), forbidden: string -> bool, path: Path, inner: Path)
    requires value.Mapping? && field in value.fields && Reject(field.1, forbidden, inner).Some?
    ensures Reject(value, forbidden, path).Some?
  {
    RefusalNamesOverride(field.1, forbidden, inner);
    var way := Reject(field.1, forbidden, inner).value[|inner|..];
    assert ([Field(field.0)] + way)[1..] == way && Ends(field, way, forbidden);
    OverrideRefused(value, forbidden, path, [Field(field.0)] + way);
  }
}
