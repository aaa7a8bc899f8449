/** Naming the type of a schema, and the types that naming it collects for later generation. Both are
    functions of the schema; the generator class computes them with a mutable collection. */
module TypeNaming {
  import opened Outcomes
  import opened OpenRpc

  /** The generator aborts on a schema that it does not support. */
  type Supported<T> = Outcome<T, ()>

  datatype Required = Yes | No(skipIfNull: bool)

  datatype TypeInfo = TypeInfo(name: string, isArray: bool, required: Required)

  /** The conversion of names to Pascal case. */
  type Pascal = string -> string

  const PRIMITIVE_MAPPINGS: map<string, string> := map[
    "#/components/schemas/address" := "Address",
    "#/components/schemas/byte" := "Byte",
    "#/components/schemas/bytes" := "Bytes",
    "#/components/schemas/bytes256" := "Bytes256",
    "#/components/schemas/hash32" := "H256",
    "#/components/schemas/bytes32" := "H256",
    "#/components/schemas/bytes8" := "String",
    "#/components/schemas/uint" := "U256",
    "#/components/schemas/uint256" := "U256",
    "#/components/schemas/uint64" := "U256"]

  /** Where a collected type is defined. */
  datatype Source = ByReference(reference: string) | BySchema(schema: Schema)

  datatype Collected = Collected(name: string, source: Source)

  function Plain(name: string): TypeInfo {
    TypeInfo(name, false, Yes)
  }

  function ReferenceToName(pascal: Pascal, reference: string): string {
    if reference in PRIMITIVE_MAPPINGS then PRIMITIVE_MAPPINGS[reference] else
      var path := Split(reference);
      pascal(path[|path| - 1])
  }

  function Join(names: seq<string>, separator: string): string {
    if names == [] then "" else if |names| == 1 then names[0] else names[0] + separator + Join(names[1..], separator)
  }

  /** The name stands for a missing value. */
  predicate IsNullName(name: string) {
    name == "Null" || name == "NotFound"
  }

  function NonNull(names: seq<string>): seq<string> {
    if names == [] then [] else (if IsNullName(names[0]) then [] else [names[0]]) + NonNull(names[1..])
  }

  function Expect<T>(r: Supported<Option<T>>): Supported<T> {
    match r
    case Ok(Some(v)) => Ok(v)
    case _ => Panic
  }

  /** String schemas that match a single digit have types of their own. */
  function DigitType(text: StringLiteral): Supported<TypeInfo> {
    if text.minLength.Some? || text.maxLength.Some? || text.format.Some? || text.enumeration.Some? then Panic
    else if text.pattern.Some? && text.pattern.value in ["^0x0$", "^0x1$", "^0x2$"] then
      Ok(Plain("Type" + text.pattern.value[3..4]))
    else Panic
  }

  /** The type of a schema; an anonymous object has none. */
  function InfoOf(pascal: Pascal, schema: Schema): Supported<Option<TypeInfo>>
    decreases schema, 1
  {
    match schema
    case Reference(r) => Ok(Some(Plain(ReferenceToName(pascal, r))))
    case Lit(ArrayOf(Some(items))) =>
      var info :- Expect(InfoOf(pascal, items));
      Ok(Some(TypeInfo(info.name, true, Yes)))
    case AllOf(parts) =>
      var names :- NamesOf(pascal, parts);
      Ok(Some(Plain(Join(names, "And"))))
    case AnyOf(items) => ChoiceOf(NamesOf(pascal, items))
    case OneOf(items) => ChoiceOf(NamesOf(pascal, items))
    case Lit(Null) => Ok(Some(Plain("Null")))
    case Lit(Text(text)) =>
      var info :- DigitType(text);
      Ok(Some(info))
    case Lit(Boolean) => Ok(Some(Plain("bool")))
    case Object(_) => Ok(None)
    case _ => Panic
  }

  /** An alternative that stands for a missing value makes the type optional. */
  function Alternatives(names: seq<string>): TypeInfo {
    TypeInfo(Join(NonNull(names), "Or"), false, if NonNull(names) == names then Yes else No(false))
  }

  function ChoiceOf(names: Supported<seq<string>>): Supported<Option<TypeInfo>> {
    var n :- names;
    Ok(Some(Alternatives(n)))
  }

  function NamesOf(pascal: Pascal, schemas: seq<Schema>): (r: Supported<seq<string>>)
    ensures r.Ok? ==> |r.value| == |schemas|
    decreases schemas, 0
  {
    if schemas == [] then Ok([]) else
      var info :- Expect(InfoOf(pascal, schemas[0]));
      var names :- NamesOf(pascal, schemas[1..]);
      Ok([info.name] + names)
  }

  /** What naming a schema collects, in order. A choice between several types is a type of its own. */
  function Collects(pascal: Pascal, schema: Schema): seq<Collected>
    decreases schema, 1
  {
    match schema
    case Reference(r) => [Collected(ReferenceToName(pascal, r), ByReference(r))]
    case Lit(ArrayOf(Some(items))) => Collects(pascal, items)
    case AllOf(parts) => CollectsAll(pascal, parts)
    case AnyOf(items) => CollectsAll(pascal, items) + CollectsChoice(pascal, schema, items)
    case OneOf(items) => CollectsAll(pascal, items) + CollectsChoice(pascal, schema, items)
    case _ => []
  }

  function CollectsChoice(pascal: Pascal, schema: Schema, items: seq<Schema>): seq<Collected>
    decreases items, 1
  {
    var names := NamesOf(pascal, items);
    if names.Ok? && |NonNull(names.value)| > 1 then
      [Collected(Join(NonNull(names.value), "Or"), BySchema(schema))]
    else []
  }

  function CollectsAll(pascal: Pascal, schemas: seq<Schema>): seq<Collected>
    decreases schemas, 0
  {
    if schemas == [] then [] else Collects(pascal, schemas[0]) + CollectsAll(pascal, schemas[1..])
  }

  // ----- the content of a generated type -----

  datatype Field = Field(name: string, info: TypeInfo, flatten: bool, alias: Option<string>)

  datatype Content =
    | Struct(fields: seq<Field>)
    | TypeAlias(info: TypeInfo)
    | Enum(variants: seq<TypeInfo>)
    | UntaggedEnum(names: seq<string>)

  /** A property that is not required may be absent. */
  function FieldOf(pascal: Pascal, o: ObjectLiteral, p: Property): Supported<Field> {
    var info :- Expect(InfoOf(pascal, p.schema));
    var required := if info.required == Yes && p.name !in o.required then No(true) else info.required;
    Ok(Field(p.name, info.(required := required), false,
             if p.name in o.legacyAliases then Some(o.legacyAliases[p.name]) else None))
  }

  function FieldsOf(pascal: Pascal, o: ObjectLiteral, properties: seq<Property>): Supported<seq<Field>> {
    if properties == [] then Ok([]) else
      var field :- FieldOf(pascal, o, properties[0]);
      var fields :- FieldsOf(pascal, o, properties[1..]);
      Ok([field] + fields)
  }

  function AnonymousFields(pascal: Pascal, part: Schema): Supported<seq<Field>> {
    match part
    case Object(o) => FieldsOf(pascal, o, o.properties)
    case Lit(ObjectOf(o)) => FieldsOf(pascal, o, o.properties)
    case _ => Panic
  }

  /** A named part of a combination is flattened into it, an anonymous object contributes its fields. */
  function PartFields(pascal: Pascal, part: Schema): Supported<seq<Field>> {
    var info :- InfoOf(pascal, part);
    match info
    case Some(i) => Ok([Field(i.name, i, true, None)])
    case None => AnonymousFields(pascal, part)
  }

  function CombinedFields(pascal: Pascal, parts: seq<Schema>): Supported<seq<Field>> {
    if parts == [] then Ok([]) else
      var fields :- PartFields(pascal, parts[0]);
      var rest :- CombinedFields(pascal, parts[1..]);
      Ok(fields + rest)
  }

  /** Alternatives that stand for a missing value are no variants. */
  function VariantsOf(pascal: Pascal, items: seq<Schema>): Supported<seq<TypeInfo>> {
    if items == [] then Ok([]) else
      var info :- Expect(InfoOf(pascal, items[0]));
      var rest :- VariantsOf(pascal, items[1..]);
      Ok((if IsNullName(info.name) then [] else [info]) + rest)
  }

  function ContentOf(pascal: Pascal, schema: Schema): Supported<Content> {
    match schema
    case Lit(ObjectOf(o)) => var fields :- FieldsOf(pascal, o, o.properties); Ok(Struct(fields))
    case Object(o) => var fields :- FieldsOf(pascal, o, o.properties); Ok(Struct(fields))
    case AllOf(parts) => var fields :- CombinedFields(pascal, parts); Ok(Struct(fields))
    case AnyOf(items) => var variants :- VariantsOf(pascal, items); Ok(Enum(variants))
    case OneOf(items) => var variants :- VariantsOf(pascal, items); Ok(Enum(variants))
    case Lit(ArrayOf(Some(items))) =>
      var info :- Expect(InfoOf(pascal, items));
      Ok(TypeAlias(TypeInfo(info.name, true, Yes)))
    case Lit(Text(StringLiteral(None, None, None, None, Some(enumeration)))) => Ok(UntaggedEnum(enumeration))
    case _ => Panic
  }

  function PropertySchemas(properties: seq<Property>): seq<Schema> {
    if properties == [] then [] else [properties[0].schema] + PropertySchemas(properties[1..])
  }

  /** A part of a combination: an anonymous object stands for its properties. */
  function OwnSchemas(part: Schema): seq<Schema> {
    if part.Object? then PropertySchemas(part.fields.properties) else [part]
  }

  function PartSchemas(parts: seq<Schema>): seq<Schema> {
    if parts == [] then [] else OwnSchemas(parts[0]) + PartSchemas(parts[1..])
  }

  /** The schemas that are named when the content of a schema is generated. */
  function Children(schema: Schema): seq<Schema> {
    match schema
    case Lit(ObjectOf(o)) => PropertySchemas(o.properties)
    case Object(o) => PropertySchemas(o.properties)
    case AllOf(parts) => PartSchemas(parts)
    case AnyOf(items) => items
    case OneOf(items) => items
    case Lit(ArrayOf(Some(items))) => [items]
    case _ => []
  }

  /** What generating a schema collects. */
  function ContentCollects(pascal: Pascal, schema: Schema): seq<Collected> {
    CollectsAll(pascal, Children(schema))
  }

  lemma OnlyObjectsAreAnonymous(pascal: Pascal, schema: Schema)
    ensures InfoOf(pascal, schema) == Ok(None) ==> schema.Object?
    ensures schema.Object? ==> Collects(pascal, schema) == []
  {
  }

  lemma CollectsAllOfOne(pascal: Pascal, schema: Schema)
    ensures CollectsAll(pascal, [schema]) == Collects(pascal, schema)
  {
    assert [schema][1..] == [];
    assert CollectsAll(pascal, [schema]) == Collects(pascal, schema) + CollectsAll(pascal, [schema][1..]);
  }

  lemma {:induction false} CollectsAllConcat(pascal: Pascal, a: seq<Schema>, b: seq<Schema>)
    ensures CollectsAll(pascal, a + b) == CollectsAll(pascal, a) + CollectsAll(pascal, b)
  {
    if a == [] {
      assert a + b == b;
    } else {
      CollectsAllConcat(pascal, a[1..], b);
      assert (a + b)[1..] == a[1..] + b && (a + b)[0] == a[0];
    }
  }

  // ----- methods of the interface -----

  datatype RpcParam = RpcParam(name: string, info: TypeInfo)

  /** A method's result is nothing, a type, or a reference that is printed as it is. */
  datatype RpcResult = NoResult | Typed(info: TypeInfo) | Literally(reference: string)

  datatype RpcMethod = RpcMethod(name: string, params: seq<RpcParam>, result: RpcResult)

  function RpcResultOf(pascal: Pascal, result: Option<RefOr<ContentDescriptor>>): Supported<RpcResult> {
    match result
    case None => Ok(NoResult)
    case Some(Inline(d)) =>
      var info :- Expect(InfoOf(pascal, d.schema));
      Ok(Typed(info))
    case Some(RefTo(reference)) => Ok(Literally(reference))
  }

  function RpcParamsOf(pascal: Pascal, params: seq<RefOr<ContentDescriptor>>): Supported<seq<RpcParam>> {
    if params == [] then Ok([]) else
      match params[0]
      case RefTo(_) => Panic
      case Inline(d) =>
        var info :- Expect(InfoOf(pascal, d.schema));
        var rest :- RpcParamsOf(pascal, params[1..]);
        Ok([RpcParam(d.name, info.(required := if d.required then Yes else No(true)))] + rest)
  }

  function RpcMethodOf(pascal: Pascal, m: Method): Supported<RpcMethod> {
    var result :- RpcResultOf(pascal, m.result);
    var params :- RpcParamsOf(pascal, m.params);
    Ok(RpcMethod(m.name, params, result))
  }

  function RpcMethodsOf(pascal: Pascal, methods: seq<Method>): Supported<seq<RpcMethod>> {
    if methods == [] then Ok([]) else
      var m :- RpcMethodOf(pascal, methods[0]);
      var rest :- RpcMethodsOf(pascal, methods[1..]);
      Ok([m] + rest)
  }

  function ParamSchemas(params: seq<RefOr<ContentDescriptor>>): seq<Schema> {
    if params == [] then [] else
      (if params[0].Inline? then [params[0].value.schema] else []) + ParamSchemas(params[1..])
  }

  function MethodSchemas(m: Method): seq<Schema> {
    (if m.result.Some? && m.result.value.Inline? then [m.result.value.value.schema] else []) + ParamSchemas(m.params)
  }

  /** The schemas that naming the types of the methods goes through, in order. */
  function AllMethodSchemas(methods: seq<Method>): seq<Schema> {
    if methods == [] then [] else MethodSchemas(methods[0]) + AllMethodSchemas(methods[1..])
  }

  /** One method more: its name, result and parameters, and the schemas they go through. */
  lemma {:induction false} MethodsAppend(pascal: Pascal, methods: seq<Method>, m: Method)
    ensures RpcMethodsOf(pascal, methods).Ok? && RpcMethodOf(pascal, m).Ok? ==>
              RpcMethodsOf(pascal, methods + [m])
              == Ok(RpcMethodsOf(pascal, methods).value + [RpcMethodOf(pascal, m).value])
    ensures CollectsAll(pascal, AllMethodSchemas(methods + [m]))
         == CollectsAll(pascal, AllMethodSchemas(methods)) + CollectsAll(pascal, MethodSchemas(m))
  {
    hide RpcMethodOf, MethodSchemas, CollectsAll;
    if methods == [] {
      assert methods + [m] == [m] && [m][1..] == [];
      assert AllMethodSchemas([m]) == MethodSchemas(m) + AllMethodSchemas([m][1..]) == MethodSchemas(m);
      assert RpcMethodsOf(pascal, [m][1..]) == Ok([]);
      assert RpcMethodOf(pascal, m).Ok? ==> [] + [RpcMethodOf(pascal, m).value] == [RpcMethodOf(pascal, m).value] + [];
      CollectsAllConcat(pascal, MethodSchemas(m), []);
    } else {
      var rest := methods[1..];
      assert (methods + [m])[0] == methods[0] && (methods + [m])[1..] == rest + [m];
      MethodsAppend(pascal, rest, m);
      if RpcMethodsOf(pascal, methods).Ok? && RpcMethodOf(pascal, m).Ok? {
        var f, l := RpcMethodOf(pascal, methods[0]).value, RpcMethodOf(pascal, m).value;
        var fs := RpcMethodsOf(pascal, rest).value;
        assert [f] + (fs + [l]) == [f] + fs + [l];
      }
      CollectsAllConcat(pascal, MethodSchemas(methods[0]), AllMethodSchemas(rest));
      CollectsAllConcat(pascal, MethodSchemas(methods[0]), AllMethodSchemas(rest + [m]));
    }
  }

  /** A method that is not supported makes all of them fail. */
  lemma {:induction false} FailingMethod(pascal: Pascal, methods: seq<Method>, i: nat)
    requires i < |methods|
    ensures RpcMethodsOf(pascal, methods).Ok? ==> RpcMethodOf(pascal, methods[i]).Ok?
  {
    hide RpcMethodOf;
    if i == 0 {
    } else {
      FailingMethod(pascal, methods[1..], i - 1);
    }
  }

  /** The methods with a wanted name; a method that is a reference is not supported. */
  function Select(wanted: set<string>, methods: seq<RefOr<Method>>): Supported<seq<Method>> {
    if methods == [] then Ok([]) else
      match methods[0]
      case RefTo(_) => Panic
      case Inline(m) =>
        var rest :- Select(wanted, methods[1..]);
        Ok((if m.name in wanted then [m] else []) + rest)
  }

  /** The methods to generate: as many as there are wanted names. */
  function WantedMethods(wanted: set<string>, specs: Specs): Supported<seq<Method>> {
    var methods :- Select(wanted, specs.methods);
    if |methods| != |wanted| then Panic else Ok(methods)
  }

  function NamesOfMethods(methods: seq<Method>): set<string> {
    set m | m in methods :: m.name
  }

  predicate DistinctNames(methods: seq<Method>) {
    forall i, j | 0 <= i < j < |methods| :: methods[i].name != methods[j].name
  }

  lemma {:induction false} DistinctMethodsCount(methods: seq<Method>)
    ensures |NamesOfMethods(methods)| <= |methods|
    ensures |NamesOfMethods(methods)| == |methods| <==> DistinctNames(methods)
  {
    if methods == [] {
    } else {
      var rest := methods[1..];
      DistinctMethodsCount(rest);
      assert methods == [methods[0]] + rest;
      assert NamesOfMethods(methods) == {methods[0].name} + NamesOfMethods(rest);
      DistinctFirst(methods);
    }
  }

  lemma DistinctFirst(methods: seq<Method>)
    requires methods != []
    ensures DistinctNames(methods)
       <==> methods[0].name !in NamesOfMethods(methods[1..]) && DistinctNames(methods[1..])
  {
    var rest := methods[1..];
    assert forall i | 0 < i < |methods| :: methods[i] == rest[i - 1];
    if methods[0].name !in NamesOfMethods(rest) && DistinctNames(rest) {
      forall i, j | 0 <= i < j < |methods|
        ensures methods[i].name != methods[j].name
      {
        assert methods[j] == rest[j - 1] && rest[j - 1] in rest;
        if i > 0 {
          assert methods[i] == rest[i - 1];
        }
      }
    }
  }

  lemma {:induction false} SelectedAreWanted(wanted: set<string>, methods: seq<RefOr<Method>>)
    requires Select(wanted, methods).Ok?
    ensures NamesOfMethods(Select(wanted, methods).value) <= wanted
  {
    if methods == [] {
    } else {
      SelectedAreWanted(wanted, methods[1..]);
    }
  }

  lemma SubsetOfSameSize<T>(a: set<T>, b: set<T>)
    requires a <= b
    ensures |a| == |b| <==> a == b
  {
    assert b == a + (b - a) && |b| == |a| + |b - a|;
  }

  /** What the count of the selected methods shows. When their names are distinct it passes exactly when
      none is missing; and when it passes, none is missing exactly when their names are distinct. */
  lemma NoneMissing(wanted: set<string>, specs: Specs)
    requires Select(wanted, specs.methods).Ok?
    ensures var methods := Select(wanted, specs.methods).value;
            && (DistinctNames(methods) ==> (WantedMethods(wanted, specs).Ok? <==> NamesOfMethods(methods) == wanted))
            && (WantedMethods(wanted, specs).Ok? ==> (NamesOfMethods(methods) == wanted <==> DistinctNames(methods)))
  {
    var methods := Select(wanted, specs.methods).value;
    DistinctMethodsCount(methods);
    SelectedAreWanted(wanted, specs.methods);
    SubsetOfSameSize(NamesOfMethods(methods), wanted);
  }

  lemma {:induction false} SelectCopies(wanted: set<string>, m: Method, k: nat)
    requires m.name in wanted
    ensures Select(wanted, seq(k, _ => Inline(m))) == Ok(seq(k, _ => m))
  {
    if k == 0 {
    } else {
      SelectCopies(wanted, m, k - 1);
      assert seq(k, _ => Inline(m))[1..] == seq(k - 1, _ => Inline(m));
      assert seq(k, _ => m) == [m] + seq(k - 1, _ => m);
    }
  }

  /** With repeated names the count shows nothing: as many copies of one wanted method as there are
      wanted names pass it, and every other wanted method is missing. */
  lemma CopiesPassTheCount(wanted: set<string>, m: Method, schemas: Option<map<string, Schema>>)
    requires m.name in wanted
    ensures var methods := WantedMethods(wanted, Specs(seq(|wanted|, _ => Inline(m)), schemas));
            methods.Ok? && NamesOfMethods(methods.value) == {m.name}
  {
    SelectCopies(wanted, m, |wanted|);
    var copies := seq(|wanted|, _ => m);
    assert |wanted| > 0 && copies[0] in copies;
  }

  /** The selection keeps the order of the document, and takes exactly the wanted methods. */
  lemma {:induction false} SelectConcat(wanted: set<string>, a: seq<RefOr<Method>>, b: seq<RefOr<Method>>)
    ensures Select(wanted, a + b).Ok? <==> Select(wanted, a).Ok? && Select(wanted, b).Ok?
    ensures Select(wanted, a + b).Ok? ==>
              Select(wanted, a + b).value == Select(wanted, a).value + Select(wanted, b).value
  {
    if a == [] {
      assert a + b == b;
    } else {
      SelectConcat(wanted, a[1..], b);
      assert (a + b)[0] == a[0] && (a + b)[1..] == a[1..] + b;
    }
  }

  lemma SelectOne(wanted: set<string>, m: RefOr<Method>)
    ensures Select(wanted, [m]).Ok? <==> m.Inline?
    ensures m.Inline? ==> Select(wanted, [m]).value == if m.value.name in wanted then [m.value] else []
  {
    assert [m][1..] == [];
  }

  /** The name of a component reference is that of its primitive type, or the last component in Pascal case. */
  lemma NameOfReference(pascal: Pascal, name: string)
    requires '/' !in name
    ensures ReferenceToName(pascal, SCHEMAS + name)
         == if SCHEMAS + name in PRIMITIVE_MAPPINGS then PRIMITIVE_MAPPINGS[SCHEMAS + name] else pascal(name)
  {
    SplitSchemas(name);
    SplitFirst(name, "");
  }
}
