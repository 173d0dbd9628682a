/** `convert_value`: one OMAS schema node, with its `data_type` code and its
    child nodes, becomes a JSON-Schema node. */
module Convert {
  import opened Json
  import opened Strings

  /** `DATA_TYPES`: the JSON-Schema kind selected by the first four
      characters of an OMAS type code. */
  const DataTypes: map<string, string> := map[
    "STRU" := "object",
    "STR_" := "string",
    "FLT_" := "number",
    "INT_" := "boolean",
    "CPX_" := "object",
    "cons" := "number"
  ]

  /** `IGNORED_COMPONENTS`: metadata keys of a node that are not children. */
  const Ignored: set<string> := {
    "coordinates", "data_type", "documentation", "full_path", "lifecycle_status",
    "lifecycle_version", "maxoccur", "structure_reference", "type"
  }

  /** The JSON-Schema kinds the table produces. */
  const Kinds: set<string> := {"object", "string", "number", "boolean"}

  /** `code[:4]`. */
  function Prefix4(code: string): (p: string)
    ensures p <= code
    ensures |p| == if |code| < 4 then |code| else 4
  {
    if |code| <= 4 then code else code[..4]
  }

  predicate IsDigit19(c: char)
  {
    '1' <= c <= '9'
  }

  /** A match of the regular expression `[1-9]+D` spanning `code[i..j+1]`. */
  ghost predicate DimensionMatch(code: string, i: int, j: int)
  {
    0 <= i < j < |code| && code[j] == 'D' && forall k :: i <= k < j ==> IsDigit19(code[k])
  }

  /** Whether some digit from 1 to 9 is immediately followed by `D`. */
  predicate HasDimension(code: string)
    decreases |code|
  {
    |code| >= 2 && ((IsDigit19(code[0]) && code[1] == 'D') || HasDimension(code[1..]))
  }

  lemma {:induction false} HasDimensionAt(code: string, j: int)
    requires 1 <= j < |code| && code[j] == 'D' && IsDigit19(code[j - 1])
    ensures HasDimension(code)
  {
    if j > 1 {
      HasDimensionAt(code[1..], j - 1);
    }
  }

  /** `re.search(r"[1-9]+D", code)` finds a match exactly when some digit
      from 1 to 9 is immediately followed by `D`. */
  lemma {:induction false} HasDimensionIffMatch(code: string)
    ensures HasDimension(code) <==> exists i, j :: DimensionMatch(code, i, j)
    decreases |code|
  {
    if HasDimension(code) {
      if IsDigit19(code[0]) && code[1] == 'D' {
        assert DimensionMatch(code, 0, 1);
      } else {
        HasDimensionIffMatch(code[1..]);
        var i, j :| DimensionMatch(code[1..], i, j);
        assert DimensionMatch(code, i + 1, j + 1);
      }
    }
    if exists i, j :: DimensionMatch(code, i, j) {
      var i, j :| DimensionMatch(code, i, j);
      HasDimensionAt(code, j);
    }
  }

  /** `is_array`. */
  predicate IsArrayCode(code: string)
  {
    HasDimension(code) || EndsWith(code, "ARRAY")
  }

  /** The children of a complex number. */
  const ComplexProperties: map<string, Json> := map[
    "real" := Obj(map["type" := Str("number")]),
    "imag" := Obj(map["type" := Str("number")])
  ]

  /** Whether `props` is a `properties` object whose members are all schema nodes. */
  predicate PropertiesOk(props: Json)
    decreases props, 0
  {
    props.Obj? && forall k | k in props.fields :: IsSchemaNode(props.fields[k])
  }

  /** The `items` member of an array node: a kind, with `properties`
      exactly when the kind is `object`. */
  predicate IsElementNode(e: Json)
    decreases e, 1
  {
    e.Obj? && e.fields.Keys <= {"type", "properties"} && "type" in e.fields
    && e.fields["type"].Str? && e.fields["type"].s in Kinds
    && ("properties" in e.fields <==> e.fields["type"].s == "object")
    && ("properties" in e.fields ==> PropertiesOk(e.fields["properties"]))
  }

  /** A well-formed JSON-Schema node as the converter produces it: an array
      with an `items` element and no `properties`, or a kind with
      `properties` exactly when it is an object, and possibly a
      `description`. */
  predicate IsSchemaNode(j: Json)
    decreases j, 2
  {
    j.Obj? && "type" in j.fields && j.fields.Keys <= {"type", "items", "properties", "description"}
    && (if j.fields["type"] == Str("array") then
          "items" in j.fields && "properties" !in j.fields && IsElementNode(j.fields["items"])
        else
          j.fields["type"].Str? && j.fields["type"].s in Kinds && "items" !in j.fields
          && ("properties" in j.fields <==> j.fields["type"].s == "object")
          && ("properties" in j.fields ==> PropertiesOk(j.fields["properties"])))
  }

  /** The node for a kind, before its description is added. */
  function Shape(element: string, isArray: bool, properties: map<string, Json>): Json
  {
    if isArray then
      Obj(map["type" := Str("array"), "items" :=
        if element == "object" then Obj(map["type" := Str(element), "properties" := Obj(properties)])
        else Obj(map["type" := Str(element)])])
    else if element == "object" then Obj(map["type" := Str(element), "properties" := Obj(properties)])
    else Obj(map["type" := Str(element)])
  }

  /** Every kind in the table is one a schema node may have. */
  lemma DataTypesKinds(prefix: string)
    requires prefix in DataTypes
    ensures DataTypes[prefix] in Kinds
  {
  }

  lemma ShapeIsSchemaNode(element: string, isArray: bool, properties: map<string, Json>)
    requires element in Kinds
    requires forall k | k in properties :: IsSchemaNode(properties[k])
    ensures IsSchemaNode(Shape(element, isArray, properties))
  {
    if element == "object" {
      assert PropertiesOk(Obj(properties));
    }
  }

  lemma ComplexPropertiesOk()
    ensures forall k | k in ComplexProperties :: IsSchemaNode(ComplexProperties[k])
  {
  }

  lemma DescribedIsSchemaNode(node: Json, docs: Json)
    requires IsSchemaNode(node)
    ensures IsSchemaNode(Obj(node.fields["description" := docs]))
  {
    var d := Obj(node.fields["description" := docs]);
    assert d.fields["type"] == node.fields["type"];
    assert "items" in d.fields ==> d.fields["items"] == node.fields["items"];
    assert "properties" in d.fields ==> d.fields["properties"] == node.fields["properties"];
  }

  /** `convert_value`. `None` stands for the exception Python raises: the
      node is not a dictionary, has no string `data_type`, its code has an
      unknown prefix, or a child of a structure fails to convert. */
  function ConvertValue(value: Json): (r: Option<Json>)
    ensures r.Some? ==> CodeOf(value).Some? && Prefix4(CodeOf(value).value) in DataTypes
    ensures r.Some? ==> IsSchemaNode(r.value)
    decreases value, 3
  {
    match value
    case Obj(fields) => ConvertNode(fields)
    case _ => None
  }

  /** `convert_value` on a dictionary. */
  function ConvertNode(fields: map<string, Json>): (r: Option<Json>)
    ensures r.Some? ==> IsSchemaNode(r.value)
    decreases Obj(fields), 2
  {
    if "data_type" !in fields || !fields["data_type"].Str? then None
    else
      var code := fields["data_type"].s;
      if Prefix4(code) !in DataTypes then None
      else
        var element := DataTypes[Prefix4(code)];
        var isObject := element == "object";
        var children := if isObject && !StartsWith(code, "CPX") then ChildProperties(fields) else Some(map[]);
        if children.None? then None
        else
          var properties := if !isObject then map[] else if StartsWith(code, "CPX") then ComplexProperties else children.value;
          DataTypesKinds(Prefix4(code));
          ComplexPropertiesOk();
          ShapeIsSchemaNode(element, IsArrayCode(code), properties);
          var node := Shape(element, IsArrayCode(code), properties);
          if "documentation" in fields && Truthy(fields["documentation"]) then
            DescribedIsSchemaNode(node, fields["documentation"]);
            Some(Obj(node.fields["description" := fields["documentation"]]))
          else
            Some(node)
  }

  /** Some child that is not metadata fails to convert. */
  predicate ChildFails(fields: map<string, Json>)
    decreases Obj(fields), 0
  {
    exists k | k in fields && k !in Ignored :: ConvertValue(fields[k]).None?
  }

  /** The `properties` of a structure: every child that is not metadata,
      converted, or `None` if one of them fails. */
  function ChildProperties(fields: map<string, Json>): (r: Option<map<string, Json>>)
    ensures r.None? <==> ChildFails(fields)
    ensures r.Some? ==> r.value.Keys == fields.Keys - Ignored
    ensures r.Some? ==> forall k | k in r.value :: Some(r.value[k]) == ConvertValue(fields[k])
    ensures r.Some? ==> forall k | k in r.value :: IsSchemaNode(r.value[k])
    decreases Obj(fields), 1
  {
    if ChildFails(fields) then None
    else Some(map k | k in fields && k !in Ignored :: ConvertValue(fields[k]).value)
  }

  /** The type code of a node: its `data_type`, when it is a dictionary
      holding a string there. */
  function CodeOf(value: Json): (code: Option<string>)
    ensures code.Some? ==> value.Obj? && "data_type" in value.fields && value.fields["data_type"] == Str(code.value)
  {
    if value.Obj? && "data_type" in value.fields && value.fields["data_type"].Str? then
      Some(value.fields["data_type"].s)
    else None
  }

  /** Where a converted node keeps its `properties`: at the top for an
      object, inside `items` for an array. */
  function PropertiesOf(node: Json): Option<Json>
  {
    if node.Obj? && "properties" in node.fields then Some(node.fields["properties"])
    else if node.Obj? && "items" in node.fields && node.fields["items"].Obj? && "properties" in node.fields["items"].fields then
      Some(node.fields["items"].fields["properties"])
    else None
  }

  /** Conversion fails exactly when the node has no string code, the code's
      prefix is not in the table, or the node is a non-complex structure
      with a child that fails. */
  lemma ConvertFails(value: Json)
    ensures ConvertValue(value).None? <==>
      CodeOf(value).None?
      || Prefix4(CodeOf(value).value) !in DataTypes
      || (DataTypes[Prefix4(CodeOf(value).value)] == "object" && !StartsWith(CodeOf(value).value, "CPX")
          && exists k | k in value.fields && k !in Ignored :: ConvertValue(value.fields[k]).None?)
  {
  }

  /** The `type` of a converted node is `array` exactly when the code names
      an array, and the table's kind otherwise; an array's `items` carry the
      table's kind. */
  lemma ConvertType(value: Json)
    requires ConvertValue(value).Some?
    ensures CodeOf(value).Some? && Prefix4(CodeOf(value).value) in DataTypes
    ensures var r, code := ConvertValue(value).value, CodeOf(value).value;
      var element := DataTypes[Prefix4(code)];
      (r.fields["type"] == Str("array") <==> IsArrayCode(code))
      && (!IsArrayCode(code) ==> r.fields["type"] == Str(element))
      && (IsArrayCode(code) ==>
            "items" in r.fields && r.fields["items"].Obj? && r.fields["items"].fields.Keys >= {"type"}
            && r.fields["items"].fields["type"] == Str(element))
  {
  }

  /** An array node has `items` and no top-level `properties`, and its
      `items` has `properties` exactly for objects; a non-array object has
      `properties` and no `items`; a scalar has neither. */
  lemma ConvertShape(value: Json)
    requires ConvertValue(value).Some?
    ensures CodeOf(value).Some? && Prefix4(CodeOf(value).value) in DataTypes
    ensures var r, code := ConvertValue(value).value, CodeOf(value).value;
      var isObject := DataTypes[Prefix4(code)] == "object";
      (IsArrayCode(code) ==>
        "items" in r.fields && "properties" !in r.fields && r.fields["items"].Obj?
        && ("properties" in r.fields["items"].fields <==> isObject))
      && (!IsArrayCode(code) ==> "items" !in r.fields && ("properties" in r.fields <==> isObject))
  {
  }

  /** A complex number has exactly the children `real` and `imag`, both
      numbers, whatever other keys its node holds. */
  lemma ConvertComplex(value: Json)
    requires ConvertValue(value).Some? && StartsWith(CodeOf(value).value, "CPX")
    ensures PropertiesOf(ConvertValue(value).value) == Some(Obj(ComplexProperties))
  {
    var code := CodeOf(value).value;
    assert Prefix4(code)[..3] == "CPX";
  }

  /** A structure that is not complex has one property per non-metadata
      key of its node, holding that child's conversion. */
  lemma ConvertChildren(value: Json)
    requires ConvertValue(value).Some?
    requires DataTypes[Prefix4(CodeOf(value).value)] == "object" && !StartsWith(CodeOf(value).value, "CPX")
    ensures PropertiesOf(ConvertValue(value).value).Some?
    ensures var props := PropertiesOf(ConvertValue(value).value).value;
      props.Obj? && props.fields.Keys == value.fields.Keys - Ignored
      && forall k | k in props.fields :: ConvertValue(value.fields[k]) == Some(props.fields[k])
  {
  }

  /** `description` is present exactly when `documentation` is present and
      truthy, and then equals it. */
  lemma ConvertDescription(value: Json)
    requires ConvertValue(value).Some?
    ensures var r := ConvertValue(value).value;
      ("description" in r.fields <==> "documentation" in value.fields && Truthy(value.fields["documentation"]))
      && ("description" in r.fields ==> r.fields["description"] == value.fields["documentation"])
  {
  }

  /** A one-dimensional float is an array of numbers. */
  lemma ConvertFloatArray()
    ensures ConvertValue(Obj(map["data_type" := Str("FLT_1D")]))
      == Some(Obj(map["type" := Str("array"), "items" := Obj(map["type" := Str("number")])]))
  {
    assert Prefix4("FLT_1D") == "FLT_";
    assert HasDimension("FLT_1D"[4..]);
    assert HasDimension("FLT_1D"[3..]);
    assert HasDimension("FLT_1D"[2..]);
    assert HasDimension("FLT_1D"[1..]);
  }

  /** A node whose code is `FLT_0D` converts to a scalar number, whatever
      else it holds: the code `0D` is not an array dimension. */
  lemma ConvertFloatScalar(fields: map<string, Json>)
    ensures var r := ConvertValue(Obj(fields["data_type" := Str("FLT_0D")]));
      r.Some? && r.value.fields["type"] == Str("number") && "items" !in r.value.fields
  {
    var code := "FLT_0D";
    assert Prefix4(code) == "FLT_";
    assert !HasDimension(code[4..]);
    assert !HasDimension(code[3..]);
    assert !HasDimension(code[2..]);
    assert !HasDimension(code[1..]);
    assert !EndsWith(code, "ARRAY");
  }
}
