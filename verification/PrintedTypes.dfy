/** The type names that the generated code prints, and which of them mean something. */
module PrintedTypes {
  import opened Outcomes
  import opened OpenRpc
  import opened TypeNaming
  import opened TypeWorklist
  import opened SchemaNames
  import opened GeneratedTypes

  // ----- the printed names of a content are those of schemas -----

  function FieldNames(fields: seq<Field>): set<string> {
    set f | f in fields :: f.info.name
  }

  function InfoNames(infos: seq<TypeInfo>): set<string> {
    set i | i in infos :: i.name
  }

  function ParamNames(params: seq<RpcParam>): set<string> {
    set q | q in params :: q.info.name
  }

  /** The type names that printing a content uses. */
  function PrintedNames(content: Content): set<string> {
    match content
    case Struct(fields) => FieldNames(fields)
    case TypeAlias(info) => {info.name}
    case Enum(variants) => InfoNames(variants)
    case UntaggedEnum(_) => {}
  }

  /** The alternatives of a choice that become variants. */
  function Variants(pascal: Pascal, items: seq<Schema>): seq<Schema> {
    if items == [] then [] else
      (if IsNullName(TypeName(pascal, items[0])) then [] else [items[0]]) + Variants(pascal, items[1..])
  }

  /** The schemas whose names the content of a schema prints: of what is named, all but the alternatives
      that stand for a missing value. */
  function PrintedSchemas(pascal: Pascal, schema: Schema): seq<Schema> {
    match schema
    case AnyOf(items) => Variants(pascal, items)
    case OneOf(items) => Variants(pascal, items)
    case _ => Children(schema)
  }

  function TypeNames(pascal: Pascal, schemas: seq<Schema>): set<string> {
    set s | s in schemas :: TypeName(pascal, s)
  }

  predicate AllHaveNames(pascal: Pascal, schemas: seq<Schema>) {
    forall s | s in schemas :: HasName(pascal, s)
  }

  lemma FieldNamesConcat(a: seq<Field>, b: seq<Field>)
    ensures FieldNames(a + b) == FieldNames(a) + FieldNames(b)
  {
  }

  lemma InfoNamesConcat(a: seq<TypeInfo>, b: seq<TypeInfo>)
    ensures InfoNames(a + b) == InfoNames(a) + InfoNames(b)
  {
  }

  lemma ParamNamesConcat(a: seq<RpcParam>, b: seq<RpcParam>)
    ensures ParamNames(a + b) == ParamNames(a) + ParamNames(b)
  {
  }

  lemma TypeNamesConcat(pascal: Pascal, a: seq<Schema>, b: seq<Schema>)
    ensures TypeNames(pascal, a + b) == TypeNames(pascal, a) + TypeNames(pascal, b)
    ensures AllHaveNames(pascal, a) && AllHaveNames(pascal, b) ==> AllHaveNames(pascal, a + b)
  {
    hide HasName, TypeName;
  }

  lemma {:induction false} FieldsPrint(pascal: Pascal, o: ObjectLiteral, properties: seq<Property>)
    requires FieldsOf(pascal, o, properties).Ok?
    ensures AllHaveNames(pascal, PropertySchemas(properties))
    ensures FieldNames(FieldsOf(pascal, o, properties).value) == TypeNames(pascal, PropertySchemas(properties))
  {
    hide InfoOf;
    if properties == [] {
    } else {
      var schema, rest := properties[0].schema, PropertySchemas(properties[1..]);
      FieldsPrint(pascal, o, properties[1..]);
      FieldNamesConcat([FieldOf(pascal, o, properties[0]).value], FieldsOf(pascal, o, properties[1..]).value);
      TypeNamesConcat(pascal, [schema], rest);
      assert TypeNames(pascal, [schema]) == {TypeName(pascal, schema)};
    }
  }

  lemma {:induction false} VariantsPrint(pascal: Pascal, items: seq<Schema>)
    requires VariantsOf(pascal, items).Ok?
    ensures AllHaveNames(pascal, Variants(pascal, items))
    ensures InfoNames(VariantsOf(pascal, items).value) == TypeNames(pascal, Variants(pascal, items))
  {
    hide InfoOf, IsNullName, AllHaveNames, TypeName;
    if items == [] {
      NoSchemas(pascal);
    } else {
      var item, rest, infos := items[0], Variants(pascal, items[1..]), VariantsOf(pascal, items[1..]).value;
      VariantsPrint(pascal, items[1..]);
      VariantPrints(pascal, item);
      InfoNamesConcat([InfoOf(pascal, item).value.value], infos);
      TypeNamesConcat(pascal, [item], rest);
      assert [] + infos == infos && [] + rest == rest;
    }
  }

  lemma VariantPrints(pascal: Pascal, item: Schema)
    requires HasName(pascal, item)
    ensures AllHaveNames(pascal, [item]) && InfoOf(pascal, item).value.value.name == TypeName(pascal, item)
    ensures InfoNames([InfoOf(pascal, item).value.value]) == TypeNames(pascal, [item])
  {
    hide InfoOf;
    assert TypeNames(pascal, [item]) == {TypeName(pascal, item)};
  }

  lemma {:induction false} VariantsAreItems(pascal: Pascal, items: seq<Schema>)
    ensures forall s | s in Variants(pascal, items) :: s in items
  {
    hide IsNullName, TypeName;
    if items == [] {
    } else {
      VariantsAreItems(pascal, items[1..]);
      assert items == [items[0]] + items[1..];
    }
  }

  lemma PartPrints(pascal: Pascal, part: Schema)
    requires PartFields(pascal, part).Ok?
    ensures AllHaveNames(pascal, OwnSchemas(part))
    ensures FieldNames(PartFields(pascal, part).value) == TypeNames(pascal, OwnSchemas(part))
  {
    OnlyObjectsAreAnonymous(pascal, part);
    if part.Object? {
      ObjectsHaveNoName(pascal, part);
      FieldsPrint(pascal, part.fields, part.fields.properties);
    } else {
      hide InfoOf;
      assert TypeNames(pascal, [part]) == {TypeName(pascal, part)};
    }
  }

  lemma ObjectsHaveNoName(pascal: Pascal, part: Schema)
    requires part.Object?
    ensures InfoOf(pascal, part) == Ok(None)
  {
  }

  lemma {:induction false} CombinedPrint(pascal: Pascal, parts: seq<Schema>)
    requires CombinedFields(pascal, parts).Ok?
    ensures AllHaveNames(pascal, PartSchemas(parts))
    ensures FieldNames(CombinedFields(pascal, parts).value) == TypeNames(pascal, PartSchemas(parts))
  {
    hide PartFields, OwnSchemas, AllHaveNames, TypeName;
    if parts == [] {
      NoSchemas(pascal);
    } else {
      PartPrints(pascal, parts[0]);
      CombinedPrint(pascal, parts[1..]);
      FieldNamesConcat(PartFields(pascal, parts[0]).value, CombinedFields(pascal, parts[1..]).value);
      TypeNamesConcat(pascal, OwnSchemas(parts[0]), PartSchemas(parts[1..]));
    }
  }

  lemma NoSchemas(pascal: Pascal)
    ensures AllHaveNames(pascal, []) && TypeNames(pascal, []) == {}
  {
  }

  /** The content of a schema prints the names of its printed schemas and no others. */
  lemma ContentPrints(pascal: Pascal, schema: Schema)
    requires ContentOf(pascal, schema).Ok?
    ensures PrintedNames(ContentOf(pascal, schema).value) == TypeNames(pascal, PrintedSchemas(pascal, schema))
    ensures AllHaveNames(pascal, PrintedSchemas(pascal, schema))
    ensures forall s | s in PrintedSchemas(pascal, schema) :: s in Children(schema)
  {
    hide InfoOf;
    match schema {
      case Lit(ObjectOf(o)) => FieldsPrint(pascal, o, o.properties);
      case Object(o) => FieldsPrint(pascal, o, o.properties);
      case AllOf(parts) => CombinedPrint(pascal, parts);
      case AnyOf(items) => VariantsPrint(pascal, items); VariantsAreItems(pascal, items);
      case OneOf(items) => VariantsPrint(pascal, items); VariantsAreItems(pascal, items);
      case Lit(ArrayOf(Some(items))) => assert TypeNames(pascal, [items]) == {TypeName(pascal, items)};
      case _ =>
    }
  }

  // ----- what is defined -----

  /** The names that mean something where the generated code uses them. */
  function DefinedNames(code: seq<Emission>): set<string> {
    GIVEN_TYPES + EmittedNames(code)
  }

  /** Where the name of a schema is printed, nothing stands behind it: no type has the name, and the name
      stands for a missing value or is not the name of one type. */
  predicate Dangles(pascal: Pascal, types: set<string>, schema: Schema) {
    var name := TypeName(pascal, schema);
    && name !in types
    && (name == "Null" || (name == pascal("notFound") && name !in GIVEN_TYPES) || !Named(pascal, schema))
  }

  lemma BlockedNames(pascal: Pascal)
    ensures BuiltIn(pascal) == PRIMITIVE_MAPPINGS.Values + {pascal("notFound")}
  {
    assert forall r | r in PRIMITIVE_MAPPINGS :: ReferenceToName(pascal, r) in PRIMITIVE_MAPPINGS.Values;
  }

  lemma NullIsNotGiven()
    ensures "Null" !in GIVEN_TYPES
  {
  }

  /** A name whose schema was named is defined exactly when it does not dangle. */
  lemma NameIsDefined(pascal: Pascal, code: seq<Emission>, schema: Schema)
    requires HasName(pascal, schema) && BuiltIn(pascal) !! EmittedNames(code)
    requires NamesIn(Collects(pascal, schema)) <= BuiltIn(pascal) + EmittedNames(code)
    ensures TypeName(pascal, schema) in DefinedNames(code) <==> !Dangles(pascal, EmittedNames(code), schema)
  {
    NullIsNotGiven();
    BlockedNames(pascal);
    NameIsCollected(pascal, schema);
    hide Named, TypeName, HasName, NamesIn, BuiltIn, EmittedNames;
    assert PRIMITIVE_MAPPINGS.Values <= GIVEN_TYPES && RUST_TYPES <= GIVEN_TYPES;
    hide GIVEN_TYPES, RUST_TYPES;
  }

  /** Closure, for one emitted type: each name that it prints is defined exactly when it does not dangle. */
  lemma PrintedNamesAreDefined(pascal: Pascal, specs: Specs, roots: Collection, code: seq<Emission>, done: Collection,
                               i: nat, s: Schema)
    requires Finished(pascal, specs, roots, BuiltIn(pascal), code, done) && i < |code|
    requires code[i].name in done && SchemaOf(specs, done[code[i].name]).Some?
    requires s in PrintedSchemas(pascal, SchemaOf(specs, done[code[i].name]).value)
    ensures TypeName(pascal, s) in PrintedNames(code[i].content)
    ensures TypeName(pascal, s) in DefinedNames(code) <==> !Dangles(pascal, EmittedNames(code), s)
  {
    hide Finished, Named, HasName, TypeName, Printout, Traced, Reachable, PrintedNames, PrintedSchemas, DefinedNames,
         Dangles, Collects;
    var c := Collected(code[i].name, done[code[i].name]);
    var schema := SchemaOf(specs, c.source).value;
    EmittedIsReachable(pascal, specs, roots, BuiltIn(pascal), code, done, i);
    PrintedHasSchema(pascal, specs, c);
    ContentPrints(pascal, schema);
    EmittedAtMostOnce(pascal, specs, roots, BuiltIn(pascal), code, done);
    ChildCollects(pascal, specs, roots, BuiltIn(pascal), code, done, c, schema, s);
    NameIsDefined(pascal, code, s);
  }

  /** What a printed schema of an emitted type collects is taken care of in the end. */
  lemma ChildCollects(pascal: Pascal, specs: Specs, roots: Collection, blocked: set<string>,
                      code: seq<Emission>, done: Collection, c: Collected, schema: Schema, s: Schema)
    requires Finished(pascal, specs, roots, blocked, code, done)
    requires IsOwn(done, c) && SchemaOf(specs, c.source) == Some(schema) && s in Children(schema)
    ensures NamesIn(Collects(pascal, s)) <= blocked + EmittedNames(code)
  {
    hide Justified, Disjoint, IsEmission, Collects, Children;
    DoneIsEmitted(pascal, specs, roots, blocked, code, done);
    var j :| 0 <= j < |Children(schema)| && Children(schema)[j] == s;
    forall d | d in Collects(pascal, s)
      ensures d.name in blocked + done.Keys
    {
      CollectedByAll(pascal, Children(schema), j, d);
      assert Edge(pascal, specs, Collected(c.name, done[c.name]), d);
    }
  }

  function AllPrintedNames(code: seq<Emission>): set<string> {
    set i, n | 0 <= i < |code| && n in PrintedNames(code[i].content) :: n
  }

  /** The schema of an emitted type prints this name, and it dangles. */
  ghost predicate PrintsDangling(pascal: Pascal, specs: Specs, code: seq<Emission>, done: Collection, name: string) {
    exists i, s :: 0 <= i < |code| && IsPrintedBy(pascal, specs, done, code[i], s)
                   && Dangles(pascal, EmittedNames(code), s) && TypeName(pascal, s) == name
  }

  ghost predicate IsPrintedBy(pascal: Pascal, specs: Specs, done: Collection, e: Emission, s: Schema) {
    && e.name in done && SchemaOf(specs, done[e.name]).Some?
    && s in PrintedSchemas(pascal, SchemaOf(specs, done[e.name]).value)
  }

  /** Closure, for the whole output and all documents: the printed names that mean nothing are exactly those
      that dangle where an emitted type prints them. */
  lemma AllPrintedNamesAreDefined(pascal: Pascal, specs: Specs, roots: Collection, code: seq<Emission>,
                                  done: Collection, name: string)
    requires Finished(pascal, specs, roots, BuiltIn(pascal), code, done)
    ensures name in AllPrintedNames(code) - DefinedNames(code) <==> PrintsDangling(pascal, specs, code, done, name)
  {
    hide Finished, Traced, Reachable, Printout, PrintedNames, PrintedSchemas, DefinedNames, Dangles, TypeName, HasName,
         SchemaOf, EmittedNames;
    if name in AllPrintedNames(code) {
      var i :| 0 <= i < |code| && name in PrintedNames(code[i].content);
      EmittedIsReachable(pascal, specs, roots, BuiltIn(pascal), code, done, i);
      var c := Collected(code[i].name, done[code[i].name]);
      PrintedHasSchema(pascal, specs, c);
      var schema := SchemaOf(specs, c.source).value;
      ContentPrints(pascal, schema);
      var s :| s in PrintedSchemas(pascal, schema) && TypeName(pascal, s) == name;
      PrintedNamesAreDefined(pascal, specs, roots, code, done, i, s);
      assert IsPrintedBy(pascal, specs, done, code[i], s);
    }
    if PrintsDangling(pascal, specs, code, done, name) {
      var i, s :| 0 <= i < |code| && IsPrintedBy(pascal, specs, done, code[i], s)
                  && Dangles(pascal, EmittedNames(code), s) && TypeName(pascal, s) == name;
      PrintedNamesAreDefined(pascal, specs, roots, code, done, i, s);
    }
  }

  // ----- witnesses -----

  /** A property of an emitted object has an undefined type exactly when the name of its schema dangles: when
      it is null, or a nested combination of several parts, and no type happens to have the name. */
  lemma PropertyIsUndefined(pascal: Pascal, specs: Specs, roots: Collection, code: seq<Emission>, done: Collection,
                            o: ObjectLiteral, i: nat, j: nat)
    requires Finished(pascal, specs, roots, BuiltIn(pascal), code, done) && i < |code| && code[i].name in done
    requires SchemaOf(specs, done[code[i].name]) == Some(Object(o))
          || SchemaOf(specs, done[code[i].name]) == Some(Lit(ObjectOf(o)))
    requires j < |o.properties|
    ensures var s := o.properties[j].schema;
            TypeName(pascal, s) in AllPrintedNames(code) - DefinedNames(code)
            <==> Dangles(pascal, EmittedNames(code), s)
  {
    hide Finished, PrintedNames, TypeName, Dangles, DefinedNames, EmittedNames;
    PropertyIsChild(o.properties, j);
    PrintedNamesAreDefined(pascal, specs, roots, code, done, i, o.properties[j].schema);
  }

  lemma {:induction false} PropertyIsChild(properties: seq<Property>, j: nat)
    requires j < |properties|
    ensures properties[j].schema in PropertySchemas(properties)
  {
    if j == 0 {
    } else {
      PropertyIsChild(properties[1..], j - 1);
    }
  }

  /** Two schemas of this kind: null, and a combination of any several named parts. */
  lemma NullAndJoinsDangle(pascal: Pascal, types: set<string>, parts: seq<Schema>)
    requires |parts| >= 2 && NamesOf(pascal, parts).Ok?
    ensures Dangles(pascal, types, Lit(Null)) <==> "Null" !in types
    ensures Dangles(pascal, types, AllOf(parts)) <==> Join(NamesOf(pascal, parts).value, "And") !in types
  {
    NameOfNull(pascal);
    JoinedPartsAreNotCollected(pascal, parts);
    hide TypeName, Named, HasName, Join, GIVEN_TYPES, NamesOf;
  }

  lemma NameOfNull(pascal: Pascal)
    ensures TypeName(pascal, Lit(Null)) == "Null"
  {
  }

  /** The smallest object of this kind is supported, prints nothing but `Null` and collects nothing. */
  lemma NullPropertyAlone(pascal: Pascal, name: string)
    ensures var schema := Object(ObjectLiteral([Property(name, Lit(Null))], map[], [name]));
            && ContentOf(pascal, schema) == Ok(Struct([Field(name, Plain("Null"), false, None)]))
            && PrintedNames(ContentOf(pascal, schema).value) == {"Null"} && ContentCollects(pascal, schema) == []
  {
    var o := ObjectLiteral([Property(name, Lit(Null))], map[], [name]);
    assert o.properties[1..] == [];
    assert FieldOf(pascal, o, o.properties[0]) == Ok(Field(name, Plain("Null"), false, None));
    assert FieldsOf(pascal, o, o.properties[1..]) == Ok([]);
    assert FieldsOf(pascal, o, o.properties) == Ok([Field(name, Plain("Null"), false, None)] + []);
    assert [Field(name, Plain("Null"), false, None)] + [] == [Field(name, Plain("Null"), false, None)];
    CollectsAllOfOne(pascal, Lit(Null));
    assert PropertySchemas(o.properties) == [Lit(Null)] + PropertySchemas(o.properties[1..]) == [Lit(Null)];
  }

  // ----- the types of the methods -----

  /** The names of the types of parameters and results. */
  function MethodTypes(methods: seq<RpcMethod>): set<string> {
    if methods == [] then {} else
      ParamNames(methods[0].params)
      + (if methods[0].result.Typed? then {methods[0].result.info.name} else {})
      + MethodTypes(methods[1..])
  }

  /** The references that are printed as results, as they are. */
  function LiteralResults(methods: seq<RpcMethod>): set<string> {
    set m | m in methods && m.result.Literally? :: m.result.reference
  }

  /** All type names that printing the methods uses. */
  function MethodNames(methods: seq<RpcMethod>): set<string> {
    MethodTypes(methods) + LiteralResults(methods)
  }

  lemma {:induction false} ParamsPrint(pascal: Pascal, params: seq<RefOr<ContentDescriptor>>)
    requires RpcParamsOf(pascal, params).Ok?
    ensures AllHaveNames(pascal, ParamSchemas(params))
    ensures ParamNames(RpcParamsOf(pascal, params).value) == TypeNames(pascal, ParamSchemas(params))
  {
    hide InfoOf;
    if params == [] {
    } else {
      var schema := params[0].value.schema;
      var first, rest := RpcParamsOf(pascal, params).value[0], RpcParamsOf(pascal, params[1..]).value;
      assert RpcParamsOf(pascal, params).value == [first] + rest;
      ParamsPrint(pascal, params[1..]);
      ParamNamesConcat([first], rest);
      TypeNamesConcat(pascal, [schema], ParamSchemas(params[1..]));
      assert TypeNames(pascal, [schema]) == {TypeName(pascal, schema)};
    }
  }

  lemma MethodPrints(pascal: Pascal, m: Method)
    requires RpcMethodOf(pascal, m).Ok?
    ensures AllHaveNames(pascal, MethodSchemas(m))
    ensures MethodTypes([RpcMethodOf(pascal, m).value]) == TypeNames(pascal, MethodSchemas(m))
  {
    hide InfoOf;
    var rpc := RpcMethodOf(pascal, m).value;
    var result := if m.result.Some? && m.result.value.Inline? then [m.result.value.value.schema] else [];
    ParamsPrint(pascal, m.params);
    TypeNamesConcat(pascal, result, ParamSchemas(m.params));
    assert [rpc][1..] == [];
    if result != [] {
      assert TypeNames(pascal, result) == {TypeName(pascal, result[0])};
    }
  }

  /** The typed names of the methods are those of the schemas that they name. */
  lemma {:induction false} MethodsPrint(pascal: Pascal, methods: seq<Method>)
    requires RpcMethodsOf(pascal, methods).Ok?
    ensures AllHaveNames(pascal, AllMethodSchemas(methods))
    ensures MethodTypes(RpcMethodsOf(pascal, methods).value) == TypeNames(pascal, AllMethodSchemas(methods))
  {
    hide RpcMethodOf, MethodSchemas, AllHaveNames, TypeName;
    if methods == [] {
      NoSchemas(pascal);
    } else {
      var first, rest := RpcMethodOf(pascal, methods[0]).value, RpcMethodsOf(pascal, methods[1..]).value;
      MethodPrints(pascal, methods[0]);
      MethodsPrint(pascal, methods[1..]);
      TypeNamesConcat(pascal, MethodSchemas(methods[0]), AllMethodSchemas(methods[1..]));
      assert ([first] + rest)[1..] == rest && [first][1..] == [];
    }
  }

  /** No schema named for a method dangles, and every literal result names a type. */
  predicate MethodsAreClosed(pascal: Pascal, types: set<string>, methods: seq<Method>, rpc: seq<RpcMethod>) {
    && (forall s | s in AllMethodSchemas(methods) :: !Dangles(pascal, types, s))
    && LiteralResults(rpc) <= GIVEN_TYPES + types
  }

  /** Every name in the generated methods is defined exactly when none of them dangles and every literal
      result names a type. */
  lemma MethodTypesAreDefined(pascal: Pascal, specs: Specs, methods: seq<Method>, code: seq<Emission>, done: Collection)
    requires Finished(pascal, specs, Roots(pascal, methods), BuiltIn(pascal), code, done)
    requires RpcMethodsOf(pascal, methods).Ok?
    ensures var rpc := RpcMethodsOf(pascal, methods).value;
            MethodNames(rpc) <= DefinedNames(code) <==> MethodsAreClosed(pascal, EmittedNames(code), methods, rpc)
  {
    hide Finished, MethodTypes, LiteralResults, GIVEN_TYPES, Dangles, TypeName, HasName, Collects;
    MethodsPrint(pascal, methods);
    forall s | s in AllMethodSchemas(methods)
      ensures TypeName(pascal, s) in DefinedNames(code) <==> !Dangles(pascal, EmittedNames(code), s)
    {
      RootCollects(pascal, specs, methods, code, done, s);
      NameIsDefined(pascal, code, s);
    }
  }

  lemma RootCollects(pascal: Pascal, specs: Specs, methods: seq<Method>, code: seq<Emission>, done: Collection,
                     s: Schema)
    requires Finished(pascal, specs, Roots(pascal, methods), BuiltIn(pascal), code, done)
    requires s in AllMethodSchemas(methods)
    ensures BuiltIn(pascal) !! EmittedNames(code)
    ensures NamesIn(Collects(pascal, s)) <= BuiltIn(pascal) + EmittedNames(code)
  {
    hide Justified, IsEmission, Closed, BuiltIn, Collects;
    EmittedAtMostOnce(pascal, specs, Roots(pascal, methods), BuiltIn(pascal), code, done);
    DoneIsEmitted(pascal, specs, Roots(pascal, methods), BuiltIn(pascal), code, done);
    var cs := CollectsAll(pascal, AllMethodSchemas(methods));
    CollectEachKeys(BuiltIn(pascal), map[], ExtraRoot() + cs);
    var j :| 0 <= j < |AllMethodSchemas(methods)| && AllMethodSchemas(methods)[j] == s;
    forall d | d in Collects(pascal, s)
      ensures d in ExtraRoot() + cs
    {
      CollectedByAll(pascal, AllMethodSchemas(methods), j, d);
    }
  }
}
