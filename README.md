# Broker variables: labels, JSON Schema, defaults and validation

This project models the broker-variable logic of the GCP service broker
(`pkg/broker/variables.go`) and proves properties of it in Dafny.

A *broker variable* (`BrokerVariable`) describes one configuration parameter
of a service plan. Each has:

- a field name, a JSON Schema type and a human-readable description;
- an optional default value;
- an optional enumeration of allowed values;
- a flag saying whether the field is required;
- a map of raw JSON Schema constraints.

The model covers what the broker does with such descriptors:

- **`fieldNameToLabel`** turns a field name such as `instance-id` into a title
  such as `Instance ID`. It splits on white space, `-`, `_` and `.`, rewrites
  a small table of acronyms, and upper-cases the first letter of every other
  component (`labels.dfy`).
- **`BrokerVariable.Validate`** checks one descriptor. It collects every
  field-level error instead of stopping at the first (`variables.dfy`).
- **`BrokerVariable.ToSchema`** turns one descriptor into a JSON Schema
  fragment. The keys are written in a fixed order: the title, then the
  constraints, then `enum`, `description`, `type` and `default`. A later key
  replaces an earlier one with the same name. Enumeration values are sorted by
  their string form (`variables.dfy`).
- **`CreateJsonSchema`** folds a list of descriptors into a draft-04 document.
  It has `$schema`, `type: object` and `properties`, plus a `required` list
  when some descriptor is required (`variables.dfy`).
- **`ApplyDefaults`** fills a parameter payload with default values in place.
  It never overwrites a key the payload already has (`defaults.dfy`).
- **`ValidateVariablesAgainstSchema`** and **`ValidateVariables`** run a
  schema engine and report its outcome. The outcome is the engine's own
  error, nothing, or one aggregate error holding every violation message
  (`validation.dfy`).

JSON values (`interface{}` in Go) are the datatype `Json.JValue`. Go's nil is
`JNull`, and Go maps of JSON values are Dafny `map<string, JValue>`.
`json.dfy` also defines two Go behaviours the model relies on:

- `Display`, the `%v` rendering of a scalar;
- `Less`, Go's `<` on strings, with lemmas that it is a strict total order.

The step-by-step code is imperative Dafny:

- `ApplyDefaults` updates the `entries` field of a `Parameters` object inside
  a loop.
- `FieldNameToLabel` rewrites its components in a loop.
- `ToSchema` builds its map by sequential updates.
- `CollectProperties` is the loop of `CreateJsonSchema`.

Each method is proved against a specification function or predicate, and the
properties the source promises are proved as lemmas about that specification:

| method | specification |
|---|---|
| `FieldNameToLabel` | `Label` |
| `ToSchema` | `IsFragmentOf` |
| `CreateJsonSchema` | `IsJsonSchemaOf` |
| `ApplyDefaults` | `DefaultsOf` |

Some collaborators are not visible, so they are parameters:

- the blank check and the schema-type check used by `Validate`;
- the schema engine used by the validation functions.

Iteration order over Go maps, and the order of `utils.StringSet.ToSlice`, are
not fixed by the program, so the model picks elements with `:|`. The
contracts hold for every order.

## Model

| member | source | states |
|---|---|---|
| Json.DisplayForms | pkg/broker/variables.go:94 | `Display` is the `%v` form of a scalar: `<nil>` for nil, `true` or `false`, a number as its decimal digits (denoting its absolute value) after a `-` exactly when it is negative, a string as it is |
| Json.NatToStringValue | pkg/broker/variables.go:94 | the decimal digits written for a natural number denote that number |
| Json.DisplayNumInjective | pkg/broker/variables.go:94 | two numbers with the same `%v` form are equal |
| Json.LessIsLexicographic | pkg/broker/variables.go:94 | Go's `<` on strings holds exactly when the first is a proper prefix of the second or is smaller at the first position where they differ |
| Json.LessIrreflexive | pkg/broker/variables.go:93-95 | no string sorts before itself |
| Json.LessTransitive | pkg/broker/variables.go:93-95 | the sort comparison is transitive |
| Json.LessTotal | pkg/broker/variables.go:93-95 | any two different strings are ordered one way or the other |
| Labels.SeparatorClass | pkg/broker/variables.go:124-126 | `-`, `_`, `.`, space, tab, newline and carriage return split a field name; ASCII letters and digits never do |
| Labels.Fields | pkg/broker/variables.go:124-126 | every component `strings.FieldsFunc` yields is non-empty and holds no separator |
| Labels.FieldsKeepEverythingElse | pkg/broker/variables.go:124-126 | the components, concatenated, are exactly the input with every separator removed, in order |
| Labels.FieldsEmpty | pkg/broker/variables.go:124-126 | there are no components exactly when the input is empty or made only of separators |
| Labels.Component | pkg/broker/variables.go:128-133 | a component equal to one of the five table keys becomes its acronym; any other keeps its length and its characters after the first, with the first upper-cased |
| Labels.FieldsOfJoin | pkg/broker/variables.go:136 | joining non-empty, separator-free words with single spaces and splitting again gives the same words back |
| Labels.FieldNameToLabel | pkg/broker/variables.go:115-137 | the loop's result is the label: the rewritten components joined by single spaces; it is empty exactly when the field name has only separators |
| Labels.LabelEmpty | pkg/broker/variables.go:124-136 | the label is "" exactly when the field name is empty or only separators |
| Labels.LabelSplitsIntoWords | pkg/broker/variables.go:124-136 | splitting the label gives exactly the rewritten components: one space between words and no empty pieces |
| Labels.LabelOfInstanceId | pkg/broker/variables.go:116-136 | `instance-id` is labelled `Instance ID` |
| Labels.LabelOfJdbcUrl | pkg/broker/variables.go:116-136 | `jdbc_url` is labelled `JDBC URL` |
| Labels.Acronym | pkg/broker/variables.go:116-122 | the table has exactly the keys `id`, `uri`, `url`, `gb`, `jdbc` (`IsAcronym`), and each key maps to itself upper-cased, character by character |
| Labels.ToUpper | pkg/broker/variables.go:132 | a lowercase ASCII letter becomes the uppercase letter 32 code points below it; any other character is unchanged |
| Labels.JoinOnlyAddsSpaces | pkg/broker/variables.go:136 | `strings.Join` with a single space only adds separators: removing them leaves the separator-free words run together |
| Variables.Validate | pkg/broker/variables.go:63-70 | a blank field name, an invalid type and blank details are each reported exactly when they occur, all together, each once; no error exactly when all three checks pass |
| Variables.PrimitiveDescriptorIsValid | pkg/broker/variables.go:31-36 | an instance of `Validate`'s contract: with a type check that accepts the four primitive type constants, a descriptor of one of those types with non-blank name and details validates cleanly |
| Variables.SortedEnumeration | pkg/broker/variables.go:86-98 | the enumeration lists every key of the enum map exactly once, non-decreasing by the Go string order of the keys' `%v` forms |
| Variables.CopyConstraints | pkg/broker/variables.go:82-84 | after the loop the schema is the earlier schema overridden by every constraint |
| Variables.ToSchema | pkg/broker/variables.go:72-113 | the fragment is the title entry, overridden by the constraints, then by enum, description, type and default, each written only when the descriptor supplies it |
| Variables.FragmentKeys | pkg/broker/variables.go:76-110 | a key is in the fragment exactly when it is a constraint, a generated keyword, or `title` for a named field |
| Variables.ConstraintKept | pkg/broker/variables.go:82-110 | a constraint that no generated keyword replaces appears with its value unchanged |
| Variables.TitleConstraintWins | pkg/broker/variables.go:76-84 | a `title` constraint overrides the generated title |
| Variables.TitleIsLabel | pkg/broker/variables.go:78-80 | without a `title` constraint, a named field's title is its label |
| Variables.GeneratedKeywordsWin | pkg/broker/variables.go:100-110 | non-empty details, a non-empty type and a non-nil default are written as given, replacing any constraint of the same key |
| Variables.EnumIsSortedKeys | pkg/broker/variables.go:86-98 | a non-empty enum map yields an `enum` array that is a sorted permutation of its keys, replacing any `enum` constraint |
| Variables.OptionalKeysNeedASource | pkg/broker/variables.go:86-110 | `description`, `type`, `default`, `enum` and `title` are present exactly when the descriptor supplies them or a constraint of that name exists |
| Variables.RequiredNames | pkg/broker/variables.go:184-189 | the required set holds exactly the names of required descriptors; it is non-empty exactly when some descriptor is required |
| Variables.ToSlice | pkg/broker/variables.go:198 | the slice holds each member of the set exactly once |
| Variables.RequiredList | pkg/broker/variables.go:197-199 | the `required` items are the set's names as strings, each exactly once |
| Variables.CollectProperties | pkg/broker/variables.go:184-189 | the loop writes each descriptor's fragment under its name in list order and collects exactly the required names |
| Variables.CreateJsonSchema | pkg/broker/variables.go:179-202 | the document is the header with the properties, plus a `required` list of exactly the required names when there are any |
| Variables.PropertiesKeys | pkg/broker/variables.go:184-186 | the keys of `properties` are exactly the field names |
| Variables.PropertyIsLastFragment | pkg/broker/variables.go:184-186 | each property is the fragment of the last descriptor with that name |
| Variables.DocumentParts | pkg/broker/variables.go:191-199 | a document has exactly the keys `$schema`, `type`, `properties`, and `required` when some descriptor is required |
| Variables.SchemaShape | pkg/broker/variables.go:191-195 | `$schema` is the draft-04 URI, `type` is `object`, and the keys of `properties` are exactly the field names |
| Variables.LastFragmentWins | pkg/broker/variables.go:184-186 | a descriptor that no later descriptor shares a name with has its own fragment as its property |
| Variables.LastDuplicateWins | pkg/broker/variables.go:184-186 | with duplicate names, the property of a name is a fragment of the last descriptor bearing it |
| Variables.EmptyListSchema | pkg/broker/variables.go:179-202 | no descriptors give empty `properties` and no `required` key |
| Variables.RequiredPresence | pkg/broker/variables.go:197-199 | `required` is present exactly when some descriptor is required |
| Variables.RequiredListIsExact | pkg/broker/variables.go:181-199 | the `required` list names exactly the required descriptors and has no duplicates |
| Defaults.DefaultsOfValues | pkg/broker/variables.go:142-146 | `DefaultsOf`, the defaults the loop adds to an empty payload, are never nil, and only under names some descriptor has |
| Defaults.ApplyDefaults | pkg/broker/variables.go:139-148 | the payload afterwards is the defaults the descriptors contribute, overridden by every entry the payload already had |
| Defaults.DefaultsOfKeys | pkg/broker/variables.go:142-146 | a field receives a default exactly when some descriptor of that name has a non-nil default |
| Defaults.FirstDefaultWins | pkg/broker/variables.go:142-146 | the default a field receives comes from the first descriptor of that name with a non-nil default |
| Defaults.NeverOverwrites | pkg/broker/variables.go:143-144 | a key already in the payload keeps its value |
| Defaults.EveryDefaultPresent | pkg/broker/variables.go:142-146 | afterwards every descriptor with a non-nil default has its field present |
| Defaults.MissingFieldGetsFirstDefault | pkg/broker/variables.go:142-146 | a missing field is filled with the first non-nil default given for it |
| Defaults.UnnamedKeysUntouched | pkg/broker/variables.go:142-146 | a key that no descriptor names is present, and has its value, exactly as before |
| Defaults.ApplyTwice | pkg/broker/variables.go:139-148 | applying the defaults a second time changes nothing |
| Validation.ValidateVariablesAgainstSchema | pkg/broker/variables.go:155-177 | an engine error is returned unchanged; no violations gives no error; otherwise one aggregate holds every violation message in engine order |
| Validation.ValidateVariables | pkg/broker/variables.go:150-153 | the payload is checked against a schema that is the document of the descriptors, and the outcome is reported in the same three ways |

## Left out

- `unicode.IsSpace` is modelled on Latin-1 only: tab to carriage return, space, U+0085 and U+00A0. The other Unicode space characters are not separators in this model.
- Labels.Component upper-cases ASCII letters only. Go's `strings.ToUpper(c[:1])` slices the first byte, not the first character; a component starting with a multi-byte character is outside this model.
- Numbers are integers (`JNum(int)`). Floating-point values from YAML or JSON are not modelled.
- `validation.ErrIfBlank` and `validation.ErrIfNotJSONSchemaType` are not part of this model. `Validate` takes them as parameters. The only type strings the model names are the four constants.
- The `gojsonschema` engine is not part of this model. It is a parameter that yields either its own error or the list of violation messages.
- `multierror` and `utils.SingleLineErrorFormatter` are not part of this model. The aggregate error is the list of messages, and its text rendering is not modelled.
- Variables.ToSlice: the order of `utils.StringSet.ToSlice` is not shown, so the model leaves it open. The contract states only membership and no duplicates.
- Validation.ValidateVariables: since the `required` order is left open, the contract says the payload is checked against *some* document of the descriptors, not a unique one.
- Go map iteration order is left open in the enumeration and constraint loops. `sort.Slice` is not stable, so keys with equal string forms may come in either order.
- Defaults.ApplyDefaults: a nil `parameters` map is not modelled. In Go, writing a default into a nil map panics ("assignment to entry in nil map") as soon as a descriptor with a non-nil default needs writing, while the model's `Parameters` always holds a map, so that call simply fills in the defaults. Go also stores `v.Default` by reference, so a default that is itself a map or slice is shared between the payload and the descriptor; model values are immutable, so that aliasing is not captured.
- YAML struct tags and deserialisation are not modelled.
- `pkg/generator/pcf-artifacts.go` renders manifest templates and does not touch the broker-variable logic. It is not part of this model.
- Map updates in place are modelled in two ways:
  - `ApplyDefaults` updates the map held by a `Parameters` object, so the in-place update is visible.
  - `ToSchema` and `CreateJsonSchema` return fresh maps, as the Go functions do. The constraint loop of `ToSchema` is the helper method `CopyConstraints`, and the descriptor loop of `CreateJsonSchema` is `CollectProperties`.
- The acronym lookup follows the code rather than a case-insensitive description of it. It is case-sensitive on the lowercase keys, as the Go map lookup is. For example, `ID` and `Id` are not treated as acronyms; they are capitalised like any other component.
