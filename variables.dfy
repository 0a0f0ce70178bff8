/** Broker variables: the declarative descriptor of one configuration
    parameter, its self-check, and the JSON Schema (draft-04) built from a
    list of descriptors. */
module Variables {
  import opened Json
  import Labels

  /** The four primitive JSON Schema types a descriptor may name. */
  const JsonTypeString := "string"
  const JsonTypeNumeric := "number"
  const JsonTypeInteger := "integer"
  const JsonTypeBoolean := "boolean"

  const Draft04 := "http://json-schema.org/draft-04/schema#"

  /** One configuration parameter. A `defaultValue` of `JNull` is the
      absent default; `enumValues` maps each allowed value to a friendly name;
      `constraints` holds raw JSON Schema keywords for the field. */
  datatype BrokerVariable = BrokerVariable(
    required: bool,
    fieldName: string,
    jsonType: string,
    details: string,
    defaultValue: JValue,
    enumValues: map<Scalar, string>,
    constraints: map<string, JValue>)

  // ---------------------------------------------------------------------------
  // Validating a descriptor

  /** A problem with one descriptor field, named by its YAML key. */
  datatype FieldError =
    | BlankField(path: string)
    | InvalidSchemaType(path: string, value: string)

  /** The checkers are not part of this model, so they are parameters:
      `isBlank` decides whether a required text is blank, `isSchemaType`
      whether a string names a JSON Schema type. All three checks run and
      their errors are collected in field order: field_name, type, details. */
  function Validate(bv: BrokerVariable, isBlank: string -> bool, isSchemaType: string -> bool): (errs: seq<FieldError>)
    ensures BlankField("field_name") in errs <==> isBlank(bv.fieldName)
    ensures InvalidSchemaType("type", bv.jsonType) in errs <==> !isSchemaType(bv.jsonType)
    ensures BlankField("details") in errs <==> isBlank(bv.details)
    ensures forall e :: e in errs ==> e in [BlankField("field_name"), InvalidSchemaType("type", bv.jsonType), BlankField("details")]
    ensures forall i, j :: 0 <= i < j < |errs| ==> errs[i] != errs[j]
    ensures errs == [] <==> !isBlank(bv.fieldName) && isSchemaType(bv.jsonType) && !isBlank(bv.details)
  {
    (if isBlank(bv.fieldName) then [BlankField("field_name")] else [])
    + (if isSchemaType(bv.jsonType) then [] else [InvalidSchemaType("type", bv.jsonType)])
    + (if isBlank(bv.details) then [BlankField("details")] else [])
  }

  /** A type checker that accepts (at least) the four primitive types. */
  predicate AcceptsPrimitiveTypes(isSchemaType: string -> bool)
  {
    && isSchemaType(JsonTypeString)
    && isSchemaType(JsonTypeNumeric)
    && isSchemaType(JsonTypeInteger)
    && isSchemaType(JsonTypeBoolean)
  }

  /** A descriptor naming one of the four primitive types, with a field name
      and details that are not blank, passes validation. */
  lemma PrimitiveDescriptorIsValid(bv: BrokerVariable, isBlank: string -> bool, isSchemaType: string -> bool)
    requires AcceptsPrimitiveTypes(isSchemaType)
    requires bv.jsonType in {JsonTypeString, JsonTypeNumeric, JsonTypeInteger, JsonTypeBoolean}
    requires !isBlank(bv.fieldName) && !isBlank(bv.details)
    ensures Validate(bv, isBlank, isSchemaType) == []
  {
  }

  // ---------------------------------------------------------------------------
  // The enumeration keyword

  /** The keys in `xs` come in non-decreasing order of their string forms. */
  ghost predicate SortedByDisplay(xs: seq<JValue>)
    requires forall i :: 0 <= i < |xs| ==> xs[i].IsScalar()
  {
    forall i, j :: 0 <= i < j < |xs| ==> !Less(Display(xs[j]), Display(xs[i]))
  }

  /** `xs` lists every key of `enumValues` exactly once, sorted by string form. */
  ghost predicate IsSortedEnumeration(xs: seq<JValue>, enumValues: map<Scalar, string>)
  {
    && (forall i :: 0 <= i < |xs| ==> xs[i].IsScalar() && xs[i] in enumValues)
    && (forall k :: k in enumValues ==> k in xs)
    && (forall i, j :: 0 <= i < j < |xs| ==> xs[i] != xs[j])
    && SortedByDisplay(xs)
  }

  /** The enumeration list: the keys, taken in whatever order the map yields
      them, each inserted at a place that keeps the list sorted. Keys with the
      same string form may end up in either order, as with `sort.Slice`. */
  method SortedEnumeration(enumValues: map<Scalar, string>) returns (xs: seq<JValue>)
    ensures IsSortedEnumeration(xs, enumValues)
    ensures |xs| == |enumValues|
  {
    xs := [];
    var rest := enumValues.Keys;
    while rest != {}
      invariant rest <= enumValues.Keys
      invariant |xs| + |rest| == |enumValues.Keys|
      invariant forall i :: 0 <= i < |xs| ==> xs[i].IsScalar() && xs[i] in enumValues && xs[i] !in rest
      invariant forall k :: k in enumValues && k !in rest ==> k in xs
      invariant forall i, j :: 0 <= i < j < |xs| ==> xs[i] != xs[j]
      invariant SortedByDisplay(xs)
      decreases rest
    {
      var k :| k in rest;
      var p := 0;
      while p < |xs| && !Less(Display(k), Display(xs[p]))
        invariant 0 <= p <= |xs|
        invariant forall j :: 0 <= j < p ==> !Less(Display(k), Display(xs[j]))
      {
        p := p + 1;
      }
      InsertKeepsOrder(xs, p, k);
      InsertKeepsKeys(xs, p, k);
      InsertKeepsDistinct(xs, p, k);
      xs := xs[..p] + [k] + xs[p..];
      rest := rest - {k};
    }
  }

  /** Inserting `k` keeps every key already listed and adds `k`. */
  lemma InsertKeepsKeys(xs: seq<JValue>, p: nat, k: JValue)
    requires p <= |xs|
    ensures var ys := xs[..p] + [k] + xs[p..];
      && |ys| == |xs| + 1
      && (forall i :: 0 <= i < |ys| ==> ys[i] == k || ys[i] in xs)
      && k in ys
      && (forall x :: x in xs ==> x in ys)
  {
    var ys := xs[..p] + [k] + xs[p..];
    assert ys[p] == k;
    forall i | 0 <= i < |ys| ensures ys[i] == k || ys[i] in xs {
      if i < p { assert ys[i] == xs[i]; }
      else if i > p { assert ys[i] == xs[i - 1]; }
    }
    forall x | x in xs ensures x in ys {
      var i :| 0 <= i < |xs| && xs[i] == x;
      if i < p { assert ys[i] == x; } else { assert ys[i + 1] == x; }
    }
  }

  /** Inserting a key that is not listed into a list without duplicates
      gives a list without duplicates. */
  lemma InsertKeepsDistinct(xs: seq<JValue>, p: nat, k: JValue)
    requires p <= |xs|
    requires forall i, j :: 0 <= i < j < |xs| ==> xs[i] != xs[j]
    requires k !in xs
    ensures var ys := xs[..p] + [k] + xs[p..];
      forall i, j :: 0 <= i < j < |ys| ==> ys[i] != ys[j]
  {
    var ys := xs[..p] + [k] + xs[p..];
    forall i, j | 0 <= i < j < |ys| ensures ys[i] != ys[j] {
      if i == p || j == p {
        var other := if i == p then j else i;
        assert ys[other] in xs by {
          if other < p { assert ys[other] == xs[other]; } else { assert ys[other] == xs[other - 1]; }
        }
      } else {
        var i', j' := if i < p then i else i - 1, if j < p then j else j - 1;
        assert ys[i] == xs[i'] && ys[j] == xs[j'];
      }
    }
  }

  /** Inserting `k` after everything it is not below and before the first key
      it is below keeps the list sorted. */
  lemma InsertKeepsOrder(xs: seq<JValue>, p: nat, k: Scalar)
    requires forall i :: 0 <= i < |xs| ==> xs[i].IsScalar()
    requires SortedByDisplay(xs)
    requires p <= |xs|
    requires forall j :: 0 <= j < p ==> !Less(Display(k), Display(xs[j]))
    requires p < |xs| ==> Less(Display(k), Display(xs[p]))
    ensures forall i :: 0 <= i < |xs| + 1 ==> (xs[..p] + [k] + xs[p..])[i].IsScalar()
    ensures SortedByDisplay(xs[..p] + [k] + xs[p..])
  {
    var ys := xs[..p] + [k] + xs[p..];
    assert forall i :: 0 <= i < |ys| ==> ys[i] == (if i < p then xs[i] else if i == p then k else xs[i - 1]);
    forall i, j | 0 <= i < j < |ys| ensures !Less(Display(ys[j]), Display(ys[i])) {
      if i == p && j > p {
        if Less(Display(xs[j - 1]), Display(k)) {
          LessTransitive(Display(xs[j - 1]), Display(k), Display(xs[p]));
          if j - 1 == p {
            LessIrreflexive(Display(xs[p]));
          }
        }
      }
    }
  }

  // ---------------------------------------------------------------------------
  // One descriptor's schema fragment

  lemma FragmentKeywordsDistinct()
    ensures "enum" != "description" && "enum" != "type" && "enum" != "default"
    ensures "description" != "type" && "description" != "default" && "type" != "default"
    ensures "title" != "enum" && "title" != "description" && "title" != "type" && "title" != "default"
  {
  }

  /** Whether `ToSchema` writes keyword `k` after the constraints,
      overwriting any constraint of that name. */
  predicate IsGenerated(bv: BrokerVariable, k: string)
  {
    || (k == "enum" && |bv.enumValues| > 0)
    || (k == "description" && bv.details != "")
    || (k == "type" && bv.jsonType != "")
    || (k == "default" && bv.defaultValue != JNull)
  }

  /** The generated title, written first: only a named field has one. */
  function TitleEntry(bv: BrokerVariable): map<string, JValue>
  {
    if bv.fieldName != "" then map["title" := JStr(Labels.Label(bv.fieldName))] else map[]
  }

  /** The keywords written after the constraints, in order, each only when
      the descriptor supplies it. */
  function Overlay(m: map<string, JValue>, bv: BrokerVariable, enumeration: seq<JValue>): map<string, JValue>
  {
    var withEnum := if |bv.enumValues| > 0 then m["enum" := JArr(enumeration)] else m;
    var withDescription := if bv.details != "" then withEnum["description" := JStr(bv.details)] else withEnum;
    var withType := if bv.jsonType != "" then withDescription["type" := JStr(bv.jsonType)] else withDescription;
    if bv.defaultValue != JNull then withType["default" := bv.defaultValue] else withType
  }

  /** The fragment of `bv` with the given enumeration list: title, then the
      constraints, then enum, description, type and default, each later
      write replacing an earlier one with the same key. */
  ghost predicate IsFragmentWith(bv: BrokerVariable, enumeration: seq<JValue>, frag: map<string, JValue>)
  {
    && IsSortedEnumeration(enumeration, bv.enumValues)
    && frag == Overlay(TitleEntry(bv) + bv.constraints, bv, enumeration)
  }

  ghost predicate IsFragmentOf(bv: BrokerVariable, frag: map<string, JValue>)
  {
    exists enumeration :: IsFragmentWith(bv, enumeration, frag)
  }

  /** The loop that copies every constraint into the schema, replacing the
      title when a constraint is named `title`. */
  method CopyConstraints(schema: map<string, JValue>, constraints: map<string, JValue>) returns (merged: map<string, JValue>)
    ensures merged == schema + constraints
  {
    merged := schema;
    var pending := constraints.Keys;
    while pending != {}
      invariant pending <= constraints.Keys
      invariant merged == schema + map k | k in constraints.Keys - pending :: constraints[k]
      decreases pending
    {
      var k :| k in pending;
      merged := merged[k := constraints[k]];
      pending := pending - {k};
    }
    assert constraints == map k | k in constraints.Keys - pending :: constraints[k];
  }

  /** `BrokerVariable.ToSchema`. */
  method ToSchema(bv: BrokerVariable) returns (schema: map<string, JValue>)
    ensures IsFragmentOf(bv, schema)
  {
    schema := map[];
    if bv.fieldName != "" {
      var title := Labels.FieldNameToLabel(bv.fieldName);
      schema := schema["title" := JStr(title)];
    }

    schema := CopyConstraints(schema, bv.constraints);
    ghost var merged := schema;

    var enumeration := [];
    if |bv.enumValues| > 0 {
      enumeration := SortedEnumeration(bv.enumValues);
      schema := schema["enum" := JArr(enumeration)];
    }
    assert IsSortedEnumeration(enumeration, bv.enumValues);
    if bv.details != "" {
      schema := schema["description" := JStr(bv.details)];
    }
    if bv.jsonType != "" {
      schema := schema["type" := JStr(bv.jsonType)];
    }
    if bv.defaultValue != JNull {
      schema := schema["default" := bv.defaultValue];
    }
    assert schema == Overlay(merged, bv, enumeration);
    assert IsFragmentWith(bv, enumeration, schema);
  }

  /** The keys of a fragment: the constraint keys, the generated keywords and,
      for a named field, `title`; nothing else. */
  lemma FragmentKeys(bv: BrokerVariable, frag: map<string, JValue>, k: string)
    requires IsFragmentOf(bv, frag)
    ensures k in frag <==> k in bv.constraints || IsGenerated(bv, k) || (k == "title" && bv.fieldName != "")
  {
    var enumeration :| IsFragmentWith(bv, enumeration, frag);
    var m := TitleEntry(bv) + bv.constraints;
    assert k in m <==> k in bv.constraints || (k == "title" && bv.fieldName != "");
    var withEnum := if |bv.enumValues| > 0 then m["enum" := JArr(enumeration)] else m;
    assert k in withEnum <==> k in m || (k == "enum" && |bv.enumValues| > 0);
    var withDescription := if bv.details != "" then withEnum["description" := JStr(bv.details)] else withEnum;
    assert k in withDescription <==> k in withEnum || (k == "description" && bv.details != "");
    var withType := if bv.jsonType != "" then withDescription["type" := JStr(bv.jsonType)] else withDescription;
    assert k in withType <==> k in withDescription || (k == "type" && bv.jsonType != "");
    assert k in frag <==> k in withType || (k == "default" && bv.defaultValue != JNull);
  }

  /** A constraint that no generated keyword replaces appears verbatim; this
      includes a constraint named `title`, which replaces the generated title. */
  lemma ConstraintKept(bv: BrokerVariable, frag: map<string, JValue>, k: string)
    requires IsFragmentOf(bv, frag)
    requires k in bv.constraints && !IsGenerated(bv, k)
    ensures k in frag && frag[k] == bv.constraints[k]
  {
    var enumeration :| IsFragmentWith(bv, enumeration, frag);
    var m := TitleEntry(bv) + bv.constraints;
    assert m[k] == bv.constraints[k];
    var withEnum := if |bv.enumValues| > 0 then m["enum" := JArr(enumeration)] else m;
    assert withEnum[k] == bv.constraints[k];
    var withDescription := if bv.details != "" then withEnum["description" := JStr(bv.details)] else withEnum;
    assert withDescription[k] == bv.constraints[k];
    var withType := if bv.jsonType != "" then withDescription["type" := JStr(bv.jsonType)] else withDescription;
    assert withType[k] == bv.constraints[k];
  }

  /** A constraint named `title` replaces the generated title. */
  lemma TitleConstraintWins(bv: BrokerVariable, frag: map<string, JValue>)
    requires IsFragmentOf(bv, frag)
    requires "title" in bv.constraints
    ensures frag["title"] == bv.constraints["title"]
  {
    FragmentKeywordsDistinct();
    ConstraintKept(bv, frag, "title");
  }

  /** Without a `title` constraint, a named field is titled by its label. */
  lemma TitleIsLabel(bv: BrokerVariable, frag: map<string, JValue>)
    requires IsFragmentOf(bv, frag)
    requires bv.fieldName != "" && "title" !in bv.constraints
    ensures "title" in frag && frag["title"] == JStr(Labels.Label(bv.fieldName))
  {
    var enumeration :| IsFragmentWith(bv, enumeration, frag);
    FragmentKeywordsDistinct();
  }

  /** Description, type and default are written after the constraints, so
      when the descriptor supplies them they win over any constraint. */
  lemma GeneratedKeywordsWin(bv: BrokerVariable, frag: map<string, JValue>)
    requires IsFragmentOf(bv, frag)
    ensures bv.details != "" ==> "description" in frag && frag["description"] == JStr(bv.details)
    ensures bv.jsonType != "" ==> "type" in frag && frag["type"] == JStr(bv.jsonType)
    ensures bv.defaultValue != JNull ==> "default" in frag && frag["default"] == bv.defaultValue
  {
    var enumeration :| IsFragmentWith(bv, enumeration, frag);
    FragmentKeywordsDistinct();
  }

  /** A non-empty enumeration is written as every key once, sorted by
      string form, whatever constraint named `enum` there was. */
  lemma EnumIsSortedKeys(bv: BrokerVariable, frag: map<string, JValue>)
    requires IsFragmentOf(bv, frag)
    requires |bv.enumValues| > 0
    ensures "enum" in frag && frag["enum"].JArr?
    ensures IsSortedEnumeration(frag["enum"].items, bv.enumValues)
  {
    var enumeration :| IsFragmentWith(bv, enumeration, frag);
    FragmentKeywordsDistinct();
  }

  /** A fragment has a description (or type, default, enum, title) only when
      the descriptor supplies one or a constraint of that name does. */
  lemma OptionalKeysNeedASource(bv: BrokerVariable, frag: map<string, JValue>)
    requires IsFragmentOf(bv, frag)
    ensures "description" in frag <==> bv.details != "" || "description" in bv.constraints
    ensures "type" in frag <==> bv.jsonType != "" || "type" in bv.constraints
    ensures "default" in frag <==> bv.defaultValue != JNull || "default" in bv.constraints
    ensures "enum" in frag <==> |bv.enumValues| > 0 || "enum" in bv.constraints
    ensures "title" in frag <==> bv.fieldName != "" || "title" in bv.constraints
  {
    FragmentKeywordsDistinct();
    FragmentKeys(bv, frag, "description");
    FragmentKeys(bv, frag, "type");
    FragmentKeys(bv, frag, "default");
    FragmentKeys(bv, frag, "enum");
    FragmentKeys(bv, frag, "title");
  }

  // ---------------------------------------------------------------------------
  // The whole document

  function FieldNames(vars: seq<BrokerVariable>): set<string>
  {
    set i | 0 <= i < |vars| :: vars[i].fieldName
  }

  /** The names of the required descriptors. */
  function RequiredNames(vars: seq<BrokerVariable>): (names: set<string>)
    ensures forall n :: n in names <==> exists i :: 0 <= i < |vars| && vars[i].required && vars[i].fieldName == n
    ensures names <= FieldNames(vars)
    ensures names != {} <==> exists i :: 0 <= i < |vars| && vars[i].required
  {
    var names := set i | 0 <= i < |vars| && vars[i].required :: vars[i].fieldName;
    assert forall i :: 0 <= i < |vars| && vars[i].required ==> vars[i].fieldName in names;
    names
  }

  /** The position of the last descriptor named `name`, or -1 if none is. */
  function LastNamed(vars: seq<BrokerVariable>, name: string): (i: int)
    ensures -1 <= i < |vars|
    ensures 0 <= i ==> vars[i].fieldName == name && forall j :: i < j < |vars| ==> vars[j].fieldName != name
    ensures i == -1 ==> forall j :: 0 <= j < |vars| ==> vars[j].fieldName != name
  {
    if vars == [] then -1
    else if vars[|vars| - 1].fieldName == name then |vars| - 1
    else LastNamed(vars[..|vars| - 1], name)
  }

  /** The `properties` object built from the descriptors and their fragments:
      each fragment written under its field name, in list order, so a later
      descriptor replaces an earlier one with the same name. */
  function PropertiesOf(vars: seq<BrokerVariable>, frags: seq<map<string, JValue>>): map<string, JValue>
    requires |frags| == |vars|
    decreases |vars|
  {
    if vars == [] then map[]
    else
      var k := |vars| - 1;
      PropertiesOf(vars[..k], frags[..k])[vars[k].fieldName := JObj(frags[k])]
  }

  /** `frags[i]` is a fragment of `vars[i]`, for every descriptor. */
  ghost predicate AreFragmentsOf(vars: seq<BrokerVariable>, frags: seq<map<string, JValue>>)
  {
    && |frags| == |vars|
    && forall i :: 0 <= i < |vars| ==> IsFragmentOf(vars[i], frags[i])
  }

  /** The `required` list: each of `names` exactly once, as strings. */
  ghost predicate IsRequiredList(names: set<string>, items: seq<JValue>)
  {
    && (forall i :: 0 <= i < |items| ==> items[i].JStr? && items[i].s in names)
    && (forall n :: n in names ==> JStr(n) in items)
    && (forall i, j :: 0 <= i < j < |items| ==> items[i] != items[j])
  }

  /** The three keys every document has. */
  function Header(properties: map<string, JValue>): map<string, JValue>
  {
    map["$schema" := JStr(Draft04), "type" := JStr("object"), "properties" := JObj(properties)]
  }

  /** The JSON Schema document for a list of descriptors, given the fragment
      each descriptor produced: the header, plus a `required` list exactly
      when some descriptor is required. */
  ghost predicate IsJsonSchemaWith(vars: seq<BrokerVariable>, frags: seq<map<string, JValue>>, doc: map<string, JValue>)
  {
    && AreFragmentsOf(vars, frags)
    && var header := Header(PropertiesOf(vars, frags));
    && (RequiredNames(vars) == {} ==> doc == header)
    && (RequiredNames(vars) != {} ==>
          && "required" in doc
          && doc == header["required" := doc["required"]]
          && doc["required"].JArr?
          && IsRequiredList(RequiredNames(vars), doc["required"].items))
  }

  ghost predicate IsJsonSchemaOf(vars: seq<BrokerVariable>, doc: map<string, JValue>)
  {
    exists frags :: IsJsonSchemaWith(vars, frags, doc)
  }

  /** `utils.StringSet.ToSlice`: the members of a set, each once, in an
      order this model leaves open. */
  method ToSlice(names: set<string>) returns (xs: seq<string>)
    ensures forall n :: n in xs <==> n in names
    ensures forall i, j :: 0 <= i < j < |xs| ==> xs[i] != xs[j]
  {
    xs := [];
    var rest := names;
    while rest != {}
      invariant rest <= names
      invariant forall n :: n in xs <==> n in names && n !in rest
      invariant forall i, j :: 0 <= i < j < |xs| ==> xs[i] != xs[j]
      decreases rest
    {
      var n :| n in rest;
      xs := xs + [n];
      rest := rest - {n};
    }
  }

  /** The `required` value: the set's members as a list of strings. */
  method RequiredList(names: set<string>) returns (items: seq<JValue>)
    ensures IsRequiredList(names, items)
  {
    var slice := ToSlice(names);
    items := seq(|slice|, j requires 0 <= j < |slice| => JStr(slice[j]));
    forall n | n in names ensures JStr(n) in items {
      var j :| 0 <= j < |slice| && slice[j] == n;
      assert items[j] == JStr(n);
    }
  }

  /** The loop of `CreateJsonSchema`: each descriptor's fragment is written
      under its name and required names are collected in a set. */
  method CollectProperties(vars: seq<BrokerVariable>) returns (properties: map<string, JValue>, required: set<string>, ghost frags: seq<map<string, JValue>>)
    ensures AreFragmentsOf(vars, frags)
    ensures properties == PropertiesOf(vars, frags)
    ensures required == RequiredNames(vars)
  {
    required := {};
    properties := map[];
    frags := [];
    var i := 0;
    while i < |vars|
      invariant 0 <= i <= |vars|
      invariant |frags| == i
      invariant forall j :: 0 <= j < i ==> IsFragmentOf(vars[j], frags[j])
      invariant properties == PropertiesOf(vars[..i], frags)
      invariant required == RequiredNames(vars[..i])
    {
      var fragment := ToSchema(vars[i]);
      RequiredStep(vars, i);
      PropertiesStep(vars, frags, fragment, i);
      FragmentsStep(vars, frags, fragment);
      properties := properties[vars[i].fieldName := JObj(fragment)];
      frags := frags + [fragment];
      if vars[i].required {
        required := required + {vars[i].fieldName};
      }
      i := i + 1;
    }
    assert vars[..|vars|] == vars;
  }

  /** `CreateJsonSchema`. */
  method CreateJsonSchema(vars: seq<BrokerVariable>) returns (schema: map<string, JValue>)
    ensures IsJsonSchemaOf(vars, schema)
  {
    var properties, required, frags := CollectProperties(vars);
    schema := map["$schema" := JStr(Draft04), "type" := JStr("object"), "properties" := JObj(properties)];
    if required != {} {
      var items := RequiredList(required);
      schema := schema["required" := JArr(items)];
    }
    assert IsJsonSchemaWith(vars, frags, schema);
  }

  /** The field names of a prefix grow by the next descriptor's name. */
  lemma FieldNamesStep(vars: seq<BrokerVariable>, i: nat)
    requires i < |vars|
    ensures FieldNames(vars[..i + 1]) == FieldNames(vars[..i]) + {vars[i].fieldName}
  {
    var pre, next := vars[..i], vars[..i + 1];
    forall n ensures n in FieldNames(next) <==> n in FieldNames(pre) || n == vars[i].fieldName {
      if n in FieldNames(next) && n != vars[i].fieldName {
        var j :| 0 <= j < |next| && next[j].fieldName == n;
        assert pre[j].fieldName == n;
      }
      if n in FieldNames(pre) {
        var j :| 0 <= j < |pre| && pre[j].fieldName == n;
        assert next[j].fieldName == n;
      }
      if n == vars[i].fieldName {
        assert next[i].fieldName == n;
      }
    }
  }

  /** The required names of a prefix grow by the next descriptor's name when
      it is required. */
  lemma RequiredStep(vars: seq<BrokerVariable>, i: nat)
    requires i < |vars|
    ensures RequiredNames(vars[..i + 1]) == RequiredNames(vars[..i]) + (if vars[i].required then {vars[i].fieldName} else {})
  {
    var pre, next := vars[..i], vars[..i + 1];
    forall n ensures n in RequiredNames(next) <==> n in RequiredNames(pre) || (vars[i].required && n == vars[i].fieldName) {
      if n in RequiredNames(next) && !(vars[i].required && n == vars[i].fieldName) {
        var j :| 0 <= j < |next| && next[j].required && next[j].fieldName == n;
        assert pre[j].required && pre[j].fieldName == n;
      }
      if n in RequiredNames(pre) {
        var j :| 0 <= j < |pre| && pre[j].required && pre[j].fieldName == n;
        assert next[j].required && next[j].fieldName == n;
      }
      if vars[i].required && n == vars[i].fieldName {
        assert next[i].required && next[i].fieldName == n;
      }
    }
  }

  /** One more fragment of the next descriptor keeps the fragments in step
      with the descriptors. */
  lemma FragmentsStep(vars: seq<BrokerVariable>, frags: seq<map<string, JValue>>, fragment: map<string, JValue>)
    requires |frags| < |vars|
    requires forall j :: 0 <= j < |frags| ==> IsFragmentOf(vars[j], frags[j])
    requires IsFragmentOf(vars[|frags|], fragment)
    ensures forall j :: 0 <= j < |frags| + 1 ==> IsFragmentOf(vars[j], (frags + [fragment])[j])
  {
    forall j | 0 <= j < |frags| + 1 ensures IsFragmentOf(vars[j], (frags + [fragment])[j]) {
      if j < |frags| {
        assert (frags + [fragment])[j] == frags[j];
      }
    }
  }

  /** Writing one more fragment extends the properties of a prefix. */
  lemma PropertiesStep(vars: seq<BrokerVariable>, frags: seq<map<string, JValue>>, fragment: map<string, JValue>, i: nat)
    requires |frags| == i < |vars|
    ensures PropertiesOf(vars[..i + 1], frags + [fragment]) == PropertiesOf(vars[..i], frags)[vars[i].fieldName := JObj(fragment)]
  {
    var next, nextFrags := vars[..i + 1], frags + [fragment];
    assert next[..i] == vars[..i];
    assert nextFrags[..i] == frags;
    assert next[i] == vars[i] && nextFrags[i] == fragment;
  }

  /** The properties are keyed by exactly the field names. */
  lemma {:induction false} PropertiesKeys(vars: seq<BrokerVariable>, frags: seq<map<string, JValue>>)
    requires |frags| == |vars|
    ensures PropertiesOf(vars, frags).Keys == FieldNames(vars)
    decreases |vars|
  {
    if vars != [] {
      var k := |vars| - 1;
      PropertiesKeys(vars[..k], frags[..k]);
      FieldNamesStep(vars, k);
      assert vars[..k + 1] == vars;
    }
  }

  /** The property of a field is the fragment of the last descriptor with
      that name. */
  lemma {:induction false} PropertyIsLastFragment(vars: seq<BrokerVariable>, frags: seq<map<string, JValue>>, n: string)
    requires |frags| == |vars|
    requires n in PropertiesOf(vars, frags)
    ensures 0 <= LastNamed(vars, n)
    ensures PropertiesOf(vars, frags)[n] == JObj(frags[LastNamed(vars, n)])
    decreases |vars|
  {
    var k := |vars| - 1;
    if vars[k].fieldName != n {
      PropertyIsLastFragment(vars[..k], frags[..k], n);
    }
  }

  /** What a header, with or without a `required` entry, holds. */
  lemma HeaderContents(properties: map<string, JValue>, doc: map<string, JValue>, required: bool)
    requires !required ==> doc == Header(properties)
    requires required ==> "required" in doc && doc == Header(properties)["required" := doc["required"]]
    ensures doc.Keys == {"$schema", "type", "properties"} + (if required then {"required"} else {})
    ensures doc["$schema"] == JStr(Draft04) && doc["type"] == JStr("object")
    ensures doc["properties"] == JObj(properties)
  {
  }

  /** The parts of a document: the fragments it was built from, its keys
      and the values under them. */
  lemma DocumentParts(vars: seq<BrokerVariable>, doc: map<string, JValue>) returns (frags: seq<map<string, JValue>>)
    requires IsJsonSchemaOf(vars, doc)
    ensures AreFragmentsOf(vars, frags)
    ensures doc.Keys == {"$schema", "type", "properties"} + (if RequiredNames(vars) != {} then {"required"} else {})
    ensures doc["$schema"] == JStr(Draft04) && doc["type"] == JStr("object")
    ensures doc["properties"] == JObj(PropertiesOf(vars, frags))
  {
    frags :| IsJsonSchemaWith(vars, frags, doc);
    HeaderContents(PropertiesOf(vars, frags), doc, RequiredNames(vars) != {});
  }

  /** The schema always names draft-04 and describes an object whose
      properties are keyed by exactly the field names. */
  lemma SchemaShape(vars: seq<BrokerVariable>, doc: map<string, JValue>)
    requires IsJsonSchemaOf(vars, doc)
    ensures "$schema" in doc && doc["$schema"] == JStr("http://json-schema.org/draft-04/schema#")
    ensures "type" in doc && doc["type"] == JStr("object")
    ensures "properties" in doc && doc["properties"].JObj?
    ensures doc["properties"].fields.Keys == FieldNames(vars)
  {
    var frags := DocumentParts(vars, doc);
    PropertiesKeys(vars, frags);
  }

  /** The fragment of a descriptor that no later descriptor shares a name
      with is the property of its field. */
  lemma LastFragmentWins(vars: seq<BrokerVariable>, frags: seq<map<string, JValue>>, i: nat)
    requires |frags| == |vars|
    requires i < |vars|
    requires forall j :: i < j < |vars| ==> vars[j].fieldName != vars[i].fieldName
    ensures vars[i].fieldName in PropertiesOf(vars, frags)
    ensures PropertiesOf(vars, frags)[vars[i].fieldName] == JObj(frags[i])
  {
    var n := vars[i].fieldName;
    PropertiesKeys(vars, frags);
    assert n in FieldNames(vars);
    PropertyIsLastFragment(vars, frags, n);
    assert LastNamed(vars, n) == i;
  }

  /** The property of a field is a fragment of the last descriptor with that
      name; earlier descriptors with the same name leave no trace. */
  lemma LastDuplicateWins(vars: seq<BrokerVariable>, doc: map<string, JValue>, i: nat)
    requires IsJsonSchemaOf(vars, doc)
    requires i < |vars|
    requires forall j :: i < j < |vars| ==> vars[j].fieldName != vars[i].fieldName
    ensures "properties" in doc && doc["properties"].JObj?
    ensures vars[i].fieldName in doc["properties"].fields
    ensures doc["properties"].fields[vars[i].fieldName].JObj?
    ensures IsFragmentOf(vars[i], doc["properties"].fields[vars[i].fieldName].fields)
  {
    var frags := DocumentParts(vars, doc);
    LastFragmentWins(vars, frags, i);
    assert IsFragmentOf(vars[i], frags[i]);
  }

  /** An empty list gives empty properties and no `required` key. */
  lemma EmptyListSchema(doc: map<string, JValue>)
    requires IsJsonSchemaOf([], doc)
    ensures doc.Keys == {"$schema", "type", "properties"}
    ensures doc["properties"] == JObj(map[])
  {
    var frags := DocumentParts([], doc);
    assert RequiredNames([]) == {};
  }

  /** `required` is present exactly when some descriptor is required. */
  lemma RequiredPresence(vars: seq<BrokerVariable>, doc: map<string, JValue>)
    requires IsJsonSchemaOf(vars, doc)
    ensures "required" in doc <==> exists i :: 0 <= i < |vars| && vars[i].required
  {
    var frags := DocumentParts(vars, doc);
  }

  /** A `required` list holds a name exactly when the set does. */
  lemma RequiredListMembers(names: set<string>, items: seq<JValue>, n: string)
    requires IsRequiredList(names, items)
    ensures JStr(n) in items <==> n in names
  {
    if JStr(n) in items {
      var j :| 0 <= j < |items| && items[j] == JStr(n);
    }
  }

  /** The `required` list names exactly the required descriptors, each once. */
  lemma RequiredListIsExact(vars: seq<BrokerVariable>, doc: map<string, JValue>, n: string)
    requires IsJsonSchemaOf(vars, doc)
    requires "required" in doc
    ensures doc["required"].JArr?
    ensures JStr(n) in doc["required"].items <==> exists i :: 0 <= i < |vars| && vars[i].required && vars[i].fieldName == n
    ensures forall i, j :: 0 <= i < j < |doc["required"].items| ==> doc["required"].items[i] != doc["required"].items[j]
  {
    var frags :| IsJsonSchemaWith(vars, frags, doc);
    HeaderContents(PropertiesOf(vars, frags), doc, RequiredNames(vars) != {});
    RequiredListMembers(RequiredNames(vars), doc["required"].items, n);
  }
}
