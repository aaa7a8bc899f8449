/** The types that are printed, by the structure of the schemas they are printed for: name, array or not,
    optional or not, and each field, variant and parameter at its place. */
module TypeShapes {
  import opened Outcomes
  import opened OpenRpc
  import opened TypeNaming
  import opened SchemaNames
  import opened PrintedTypes

  predicate IsArray(schema: Schema) {
    schema.Lit? && schema.literal.ArrayOf? && schema.literal.items.Some?
  }

  /** The name of the schema's type says that there is no value. */
  predicate SaysMissing(pascal: Pascal, schema: Schema) {
    HasName(pascal, schema) && TypeName(pascal, schema) in {"Null", "NotFound"}
  }

  function ItemsOf(schema: Schema): seq<Schema> {
    match schema
    case AnyOf(items) => items
    case OneOf(items) => items
    case _ => []
  }

  /** A choice between types that has a missing value among its alternatives. */
  predicate IsOptionalChoice(pascal: Pascal, schema: Schema) {
    exists i :: 0 <= i < |ItemsOf(schema)| && SaysMissing(pascal, ItemsOf(schema)[i])
  }

  /** The type of a schema where nothing else is said about it. */
  predicate Describes(pascal: Pascal, schema: Schema, info: TypeInfo) {
    && info.name == TypeName(pascal, schema)
    && (IsArray(schema) <==> info.isArray)
    && info.required == if IsOptionalChoice(pascal, schema) then No(false) else Yes
  }

  lemma {:induction false} NonNullIsSame(names: seq<string>)
    ensures |NonNull(names)| <= |names|
    ensures NonNull(names) == names <==> forall i | 0 <= i < |names| :: names[i] !in {"Null", "NotFound"}
  {
    if names == [] {
    } else {
      NonNullIsSame(names[1..]);
      assert names == [names[0]] + names[1..];
      assert forall i | 0 < i < |names| :: names[i] == names[1..][i - 1];
      if NonNull(names) == names {
        assert !IsNullName(names[0]);
        assert NonNull(names) == [names[0]] + NonNull(names[1..]);
        assert NonNull(names)[1..] == NonNull(names[1..]);
      }
    }
  }

  lemma ChoiceIsOptional(pascal: Pascal, schema: Schema, items: seq<Schema>)
    requires ItemsOf(schema) == items && NamesOf(pascal, items).Ok?
    ensures NonNull(NamesOf(pascal, items).value) == NamesOf(pascal, items).value <==> !IsOptionalChoice(pascal, schema)
  {
    hide TypeName, HasName, NonNull;
    var names := NamesOf(pascal, items).value;
    NonNullIsSame(names);
    forall i | 0 <= i < |items|
      ensures names[i] in {"Null", "NotFound"} <==> SaysMissing(pascal, items[i])
    {
      NamesAt(pascal, items, i);
    }
  }

  /** Whatever has a name is described by its structure: an array exactly if it is one, and optional exactly
      if it is a choice with a missing value. */
  lemma TypeIsDescribed(pascal: Pascal, schema: Schema)
    requires HasName(pascal, schema)
    ensures Describes(pascal, schema, InfoOf(pascal, schema).value.value)
  {
    hide NonNull, Join;
    match schema {
      case AnyOf(items) => ChoiceIsOptional(pascal, schema, items);
      case OneOf(items) => ChoiceIsOptional(pascal, schema, items);
      case _ =>
    }
  }

  // ----- names -----

  /** The names of schemas, one by one. */
  predicate AreNames(pascal: Pascal, schemas: seq<Schema>, names: seq<string>) {
    && EachHasName(pascal, schemas) && |names| == |schemas|
    && forall i | 0 <= i < |schemas| :: names[i] == TypeName(pascal, schemas[i])
  }

  lemma {:induction false} NamesOneByOne(pascal: Pascal, schemas: seq<Schema>)
    ensures NamesOf(pascal, schemas).Ok? <==> EachHasName(pascal, schemas)
    ensures NamesOf(pascal, schemas).Ok? ==> AreNames(pascal, schemas, NamesOf(pascal, schemas).value)
  {
    hide InfoOf;
    if schemas == [] {
    } else {
      var rest := schemas[1..];
      NamesOneByOne(pascal, rest);
      assert forall i | 0 < i < |schemas| :: schemas[i] == rest[i - 1];
    }
  }

  predicate EachHasName(pascal: Pascal, schemas: seq<Schema>) {
    forall i | 0 <= i < |schemas| :: HasName(pascal, schemas[i])
  }

  /** Which schemas have a name: references, null, booleans and digits; an array if its items do; a
      combination or a choice if all its parts do. */
  predicate Nameable(pascal: Pascal, schema: Schema) {
    match schema
    case Reference(_) => true
    case Lit(Null) => true
    case Lit(Boolean) => true
    case Lit(Text(text)) => IsDigit(text)
    case Lit(ArrayOf(Some(items))) => HasName(pascal, items)
    case AllOf(parts) => EachHasName(pascal, parts)
    case AnyOf(items) => EachHasName(pascal, items)
    case OneOf(items) => EachHasName(pascal, items)
    case _ => false
  }

  /** The parts whose names make up the name of a combination or a choice. */
  function NamedParts(schema: Schema): seq<Schema> {
    if schema.AllOf? then schema.allOf else ItemsOf(schema)
  }

  /** The name, given the names of the parts. */
  function NameFrom(pascal: Pascal, schema: Schema, names: seq<string>): string {
    match schema
    case Reference(r) => ReferenceToName(pascal, r)
    case Lit(Null) => "Null"
    case Lit(Boolean) => "bool"
    case Lit(Text(text)) => if IsDigit(text) then DIGIT_TYPES[text.pattern.value] else ""
    case Lit(ArrayOf(Some(items))) => TypeName(pascal, items)
    case AllOf(_) => Join(names, "And")
    case AnyOf(_) => Join(NonNull(names), "Or")
    case OneOf(_) => Join(NonNull(names), "Or")
    case _ => ""
  }

  /** A schema has a name exactly if it is of these kinds, and this is the name. */
  lemma NameByStructure(pascal: Pascal, schema: Schema, names: seq<string>)
    ensures HasName(pascal, schema) <==> Nameable(pascal, schema)
    ensures HasName(pascal, schema) && AreNames(pascal, NamedParts(schema), names) ==>
              TypeName(pascal, schema) == NameFrom(pascal, schema, names)
  {
    hide Join, NonNull, DigitType, ReferenceToName;
    NamesAreUnique(pascal, NamedParts(schema), names);
    match schema {
      case Lit(Text(text)) => DigitIsNamed(text);
      case _ =>
    }
  }

  lemma NamesAreUnique(pascal: Pascal, schemas: seq<Schema>, names: seq<string>)
    ensures NamesOf(pascal, schemas).Ok? <==> EachHasName(pascal, schemas)
    ensures AreNames(pascal, schemas, names) ==> NamesOf(pascal, schemas) == Ok(names)
  {
    hide TypeName, HasName;
    NamesOneByOne(pascal, schemas);
    if AreNames(pascal, schemas, names) {
      assert NamesOf(pascal, schemas).value == names;
    }
  }

  // ----- the fields of a struct -----

  /** A property is optional if it is not required or its type is; it is left out when it is missing only in
      the first case. */
  predicate FieldDescribes(pascal: Pascal, o: ObjectLiteral, p: Property, f: Field) {
    && f.name == p.name && !f.flatten
    && HasName(pascal, p.schema) && f.info.name == TypeName(pascal, p.schema)
    && (IsArray(p.schema) <==> f.info.isArray)
    && (f.info.required == Yes <==> p.name in o.required && !IsOptionalChoice(pascal, p.schema))
    && (f.info.required == No(true) <==> p.name !in o.required && !IsOptionalChoice(pascal, p.schema))
    && f.alias == if p.name in o.legacyAliases then Some(o.legacyAliases[p.name]) else None
  }

  predicate FieldsDescribe(pascal: Pascal, o: ObjectLiteral, properties: seq<Property>, fields: seq<Field>) {
    |fields| == |properties| && forall i | 0 <= i < |fields| :: FieldDescribes(pascal, o, properties[i], fields[i])
  }

  lemma FieldIsDescribed(pascal: Pascal, o: ObjectLiteral, p: Property)
    ensures FieldOf(pascal, o, p).Ok? <==> HasName(pascal, p.schema)
    ensures FieldOf(pascal, o, p).Ok? ==> FieldDescribes(pascal, o, p, FieldOf(pascal, o, p).value)
  {
    if HasName(pascal, p.schema) {
      TypeIsDescribed(pascal, p.schema);
    }
    hide InfoOf;
  }

  lemma {:induction false} FieldsAreDescribed(pascal: Pascal, o: ObjectLiteral, properties: seq<Property>)
    ensures FieldsOf(pascal, o, properties).Ok?
       <==> forall i | 0 <= i < |properties| :: HasName(pascal, properties[i].schema)
    ensures FieldsOf(pascal, o, properties).Ok? ==>
              FieldsDescribe(pascal, o, properties, FieldsOf(pascal, o, properties).value)
  {
    hide FieldOf, FieldDescribes, HasName;
    if properties == [] {
    } else {
      FieldIsDescribed(pascal, o, properties[0]);
      FieldsAreDescribed(pascal, o, properties[1..]);
      assert forall i | 0 < i < |properties| :: properties[i] == properties[1..][i - 1];
    }
  }

  // ----- combinations -----

  function FieldCount(part: Schema): nat {
    if part.Object? then |part.fields.properties| else 1
  }

  /** A named part is one flattened field of its own name; an anonymous object contributes its fields. */
  predicate PartDescribes(pascal: Pascal, part: Schema, fields: seq<Field>) {
    if part.Object? then FieldsDescribe(pascal, part.fields, part.fields.properties, fields) else
      && |fields| == 1 && fields[0].name == TypeName(pascal, part) && fields[0].flatten && fields[0].alias == None
      && HasName(pascal, part) && Describes(pascal, part, fields[0].info)
  }

  predicate PartsDescribe(pascal: Pascal, parts: seq<Schema>, fields: seq<Field>) {
    if parts == [] then fields == [] else
      && FieldCount(parts[0]) <= |fields|
      && PartDescribes(pascal, parts[0], fields[..FieldCount(parts[0])])
      && PartsDescribe(pascal, parts[1..], fields[FieldCount(parts[0])..])
  }

  lemma PartIsDescribed(pascal: Pascal, part: Schema)
    requires PartFields(pascal, part).Ok?
    ensures |PartFields(pascal, part).value| == FieldCount(part)
    ensures PartDescribes(pascal, part, PartFields(pascal, part).value)
  {
    OnlyObjectsAreAnonymous(pascal, part);
    if part.Object? {
      ObjectsHaveNoName(pascal, part);
      FieldsAreDescribed(pascal, part.fields, part.fields.properties);
    } else {
      TypeIsDescribed(pascal, part);
    }
    hide InfoOf;
  }

  lemma {:induction false} PartsAreDescribed(pascal: Pascal, parts: seq<Schema>)
    requires CombinedFields(pascal, parts).Ok?
    ensures PartsDescribe(pascal, parts, CombinedFields(pascal, parts).value)
  {
    hide PartFields, PartDescribes, FieldCount;
    if parts == [] {
    } else {
      var first, rest := PartFields(pascal, parts[0]).value, CombinedFields(pascal, parts[1..]).value;
      PartIsDescribed(pascal, parts[0]);
      PartsAreDescribed(pascal, parts[1..]);
      assert (first + rest)[..|first|] == first && (first + rest)[|first|..] == rest;
    }
  }

  // ----- choices -----

  /** The variants are the alternatives that have a value, in order. */
  predicate VariantsDescribe(pascal: Pascal, items: seq<Schema>, infos: seq<TypeInfo>) {
    if items == [] then infos == []
    else if SaysMissing(pascal, items[0]) then VariantsDescribe(pascal, items[1..], infos)
    else infos != [] && Describes(pascal, items[0], infos[0]) && VariantsDescribe(pascal, items[1..], infos[1..])
  }

  lemma {:induction false} VariantsAreDescribed(pascal: Pascal, items: seq<Schema>)
    requires VariantsOf(pascal, items).Ok?
    ensures VariantsDescribe(pascal, items, VariantsOf(pascal, items).value)
  {
    hide InfoOf, Describes;
    if items == [] {
    } else {
      TypeIsDescribed(pascal, items[0]);
      VariantsAreDescribed(pascal, items[1..]);
      var info, rest := InfoOf(pascal, items[0]).value.value, VariantsOf(pascal, items[1..]).value;
      assert [] + rest == rest && ([info] + rest)[1..] == rest;
    }
  }

  // ----- the content of a type -----

  /** Objects and combinations are structs, choices are enums, arrays are aliases of arrays, and a plain list
      of strings is an enum of them. */
  predicate ContentDescribes(pascal: Pascal, schema: Schema, content: Content) {
    match schema
    case Lit(ObjectOf(o)) => content.Struct? && FieldsDescribe(pascal, o, o.properties, content.fields)
    case Object(o) => content.Struct? && FieldsDescribe(pascal, o, o.properties, content.fields)
    case AllOf(parts) => content.Struct? && PartsDescribe(pascal, parts, content.fields)
    case AnyOf(items) => content.Enum? && VariantsDescribe(pascal, items, content.variants)
    case OneOf(items) => content.Enum? && VariantsDescribe(pascal, items, content.variants)
    case Lit(ArrayOf(Some(items))) => content == TypeAlias(TypeInfo(TypeName(pascal, items), true, Yes))
    case Lit(Text(text)) => text.enumeration.Some? && content == UntaggedEnum(text.enumeration.value)
    case _ => false
  }

  lemma ContentIsDescribed(pascal: Pascal, schema: Schema)
    requires ContentOf(pascal, schema).Ok?
    ensures ContentDescribes(pascal, schema, ContentOf(pascal, schema).value)
  {
    hide InfoOf;
    match schema {
      case Lit(ObjectOf(o)) => FieldsAreDescribed(pascal, o, o.properties);
      case Object(o) => FieldsAreDescribed(pascal, o, o.properties);
      case AllOf(parts) => PartsAreDescribed(pascal, parts);
      case AnyOf(items) => VariantsAreDescribed(pascal, items);
      case OneOf(items) => VariantsAreDescribed(pascal, items);
      case _ =>
    }
  }

  /** The kinds of schema that a type can be generated for. */
  predicate HasContent(schema: Schema) {
    match schema
    case Lit(ObjectOf(_)) => true
    case Object(_) => true
    case AllOf(_) => true
    case AnyOf(_) => true
    case OneOf(_) => true
    case Lit(ArrayOf(Some(_))) => true
    case Lit(Text(text)) =>
      text.enumeration.Some? && text.minLength.None? && text.maxLength.None? && text.pattern.None? && text.format.None?
    case _ => false
  }

  /** A type is generated exactly for these kinds, when everything that it refers to has a name. */
  lemma ContentIsSupported(pascal: Pascal, schema: Schema)
    ensures ContentOf(pascal, schema).Ok? <==> HasContent(schema) && AllHaveNames(pascal, Children(schema))
  {
    hide InfoOf;
    match schema {
      case Lit(ObjectOf(o)) => FieldsAreSupported(pascal, o, o.properties);
      case Object(o) => FieldsAreSupported(pascal, o, o.properties);
      case AllOf(parts) => PartsAreSupported(pascal, parts);
      case AnyOf(items) => VariantsAreSupported(pascal, items);
      case OneOf(items) => VariantsAreSupported(pascal, items);
      case Lit(ArrayOf(Some(items))) => assert items in Children(schema);
      case _ =>
    }
  }

  lemma {:induction false} FieldsAreSupported(pascal: Pascal, o: ObjectLiteral, properties: seq<Property>)
    ensures FieldsOf(pascal, o, properties).Ok? <==> AllHaveNames(pascal, PropertySchemas(properties))
  {
    hide HasName, FieldOf;
    if properties == [] {
    } else {
      FieldIsDescribed(pascal, o, properties[0]);
      FieldsAreSupported(pascal, o, properties[1..]);
      AllHaveNamesConcat(pascal, [properties[0].schema], PropertySchemas(properties[1..]));
      assert properties[0].schema in [properties[0].schema];
    }
  }

  lemma AllHaveNamesConcat(pascal: Pascal, a: seq<Schema>, b: seq<Schema>)
    ensures AllHaveNames(pascal, a + b) <==> AllHaveNames(pascal, a) && AllHaveNames(pascal, b)
  {
    hide HasName;
    assert forall s | s in a || s in b :: s in a + b;
  }

  lemma {:induction false} VariantsAreSupported(pascal: Pascal, items: seq<Schema>)
    ensures VariantsOf(pascal, items).Ok? <==> AllHaveNames(pascal, items)
  {
    hide InfoOf, IsNullName;
    if items == [] {
    } else {
      VariantsAreSupported(pascal, items[1..]);
      AllHaveNamesConcat(pascal, [items[0]], items[1..]);
      assert items == [items[0]] + items[1..] && items[0] in [items[0]];
    }
  }

  lemma PartIsSupported(pascal: Pascal, part: Schema)
    ensures PartFields(pascal, part).Ok? <==> AllHaveNames(pascal, OwnSchemas(part))
  {
    OnlyObjectsAreAnonymous(pascal, part);
    if part.Object? {
      ObjectsHaveNoName(pascal, part);
      FieldsAreSupported(pascal, part.fields, part.fields.properties);
    } else {
      hide InfoOf;
      assert part in [part];
    }
  }

  lemma {:induction false} PartsAreSupported(pascal: Pascal, parts: seq<Schema>)
    ensures CombinedFields(pascal, parts).Ok? <==> AllHaveNames(pascal, PartSchemas(parts))
  {
    hide PartFields, OwnSchemas, HasName;
    if parts == [] {
    } else {
      PartIsSupported(pascal, parts[0]);
      PartsAreSupported(pascal, parts[1..]);
      AllHaveNamesConcat(pascal, OwnSchemas(parts[0]), PartSchemas(parts[1..]));
    }
  }

  // ----- methods -----

  /** A parameter is optional exactly if it is not required, whatever its type. */
  predicate ParamDescribes(pascal: Pascal, param: RefOr<ContentDescriptor>, q: RpcParam) {
    && param.Inline? && q.name == param.value.name
    && HasName(pascal, param.value.schema) && q.info.name == TypeName(pascal, param.value.schema)
    && (IsArray(param.value.schema) <==> q.info.isArray)
    && q.info.required == if param.value.required then Yes else No(true)
  }

  predicate ResultDescribes(pascal: Pascal, result: Option<RefOr<ContentDescriptor>>, r: RpcResult) {
    match result
    case None => r == NoResult
    case Some(RefTo(reference)) => r == Literally(reference)
    case Some(Inline(d)) => HasName(pascal, d.schema) && r.Typed? && Describes(pascal, d.schema, r.info)
  }

  predicate MethodDescribes(pascal: Pascal, m: Method, rpc: RpcMethod) {
    && rpc.name == m.name && ResultDescribes(pascal, m.result, rpc.result)
    && |rpc.params| == |m.params|
    && forall i | 0 <= i < |m.params| :: ParamDescribes(pascal, m.params[i], rpc.params[i])
  }

  predicate MethodsDescribe(pascal: Pascal, methods: seq<Method>, rpc: seq<RpcMethod>) {
    |rpc| == |methods| && forall i | 0 <= i < |rpc| :: MethodDescribes(pascal, methods[i], rpc[i])
  }

  lemma {:induction false} ParamsAreDescribed(pascal: Pascal, params: seq<RefOr<ContentDescriptor>>)
    requires RpcParamsOf(pascal, params).Ok?
    ensures |RpcParamsOf(pascal, params).value| == |params|
    ensures forall i | 0 <= i < |params| :: ParamDescribes(pascal, params[i], RpcParamsOf(pascal, params).value[i])
  {
    hide InfoOf;
    if params == [] {
    } else {
      var rest := RpcParamsOf(pascal, params[1..]).value;
      ParamsAreDescribed(pascal, params[1..]);
      TypeIsDescribed(pascal, params[0].value.schema);
      forall i | 0 <= i < |params|
        ensures ParamDescribes(pascal, params[i], RpcParamsOf(pascal, params).value[i])
      {
        if i > 0 {
          assert params[i] == params[1..][i - 1] && RpcParamsOf(pascal, params).value[i] == rest[i - 1];
        }
      }
    }
  }

  lemma MethodIsDescribed(pascal: Pascal, m: Method)
    requires RpcMethodOf(pascal, m).Ok?
    ensures MethodDescribes(pascal, m, RpcMethodOf(pascal, m).value)
  {
    hide InfoOf;
    ParamsAreDescribed(pascal, m.params);
    match m.result {
      case Some(Inline(d)) => TypeIsDescribed(pascal, d.schema);
      case _ =>
    }
  }

  /** Every method in order, with its name, its parameters at their places, and its result. */
  lemma {:induction false} MethodsAreDescribed(pascal: Pascal, methods: seq<Method>)
    requires RpcMethodsOf(pascal, methods).Ok?
    ensures MethodsDescribe(pascal, methods, RpcMethodsOf(pascal, methods).value)
  {
    hide RpcMethodOf, MethodDescribes;
    if methods == [] {
    } else {
      var rest := RpcMethodsOf(pascal, methods[1..]).value;
      MethodIsDescribed(pascal, methods[0]);
      MethodsAreDescribed(pascal, methods[1..]);
      forall i | 0 <= i < |methods|
        ensures MethodDescribes(pascal, methods[i], RpcMethodsOf(pascal, methods).value[i])
      {
        if i > 0 {
          assert methods[i] == methods[1..][i - 1] && RpcMethodsOf(pascal, methods).value[i] == rest[i - 1];
        }
      }
    }
  }

  /** Which methods are supported: all parameters are given inline, and they and an inline result have
      types with a name. */
  predicate Supports(pascal: Pascal, m: Method) {
    && (m.result.Some? && m.result.value.Inline? ==> HasName(pascal, m.result.value.value.schema))
    && forall i | 0 <= i < |m.params| :: m.params[i].Inline? && HasName(pascal, m.params[i].value.schema)
  }

  lemma {:induction false} ParamsAreSupported(pascal: Pascal, params: seq<RefOr<ContentDescriptor>>)
    ensures RpcParamsOf(pascal, params).Ok?
       <==> forall i | 0 <= i < |params| :: params[i].Inline? && HasName(pascal, params[i].value.schema)
  {
    hide InfoOf;
    if params == [] {
    } else {
      ParamsAreSupported(pascal, params[1..]);
      assert forall i | 0 < i < |params| :: params[i] == params[1..][i - 1];
    }
  }

  lemma {:induction false} MethodsAreSupported(pascal: Pascal, methods: seq<Method>)
    ensures RpcMethodsOf(pascal, methods).Ok? <==> forall i | 0 <= i < |methods| :: Supports(pascal, methods[i])
  {
    hide InfoOf, RpcParamsOf;
    if methods == [] {
    } else {
      ParamsAreSupported(pascal, methods[0].params);
      MethodsAreSupported(pascal, methods[1..]);
      assert forall i | 0 < i < |methods| :: methods[i] == methods[1..][i - 1];
    }
  }
}
