/** The generator: a collection of types still to be generated and a set of names already taken care
    of, driven to a fixpoint. */
module TypeGenerator {
  import opened Outcomes
  import opened OpenRpc
  import opened TypeNaming
  import opened TypeWorklist

  const SUPPORTED_ETH_METHODS: set<string> := {
    "net_version", "eth_accounts", "eth_blockNumber", "eth_call", "eth_chainId", "eth_estimateGas", "eth_gasPrice",
    "eth_getBalance", "eth_getBlockByHash", "eth_getBlockByNumber", "eth_getBlockTransactionCountByHash",
    "eth_getBlockTransactionCountByNumber", "eth_getCode", "eth_getStorageAt", "eth_getTransactionByBlockHashAndIndex",
    "eth_getTransactionByBlockNumberAndIndex", "eth_getTransactionByHash", "eth_getTransactionCount",
    "eth_getTransactionReceipt", "eth_sendRawTransaction"}

  class Generator {
    const pascal: Pascal
    var collected: Collection
    var generated: set<string>
    var filteredMethodNames: set<string>

    /** What is still to be generated has not been generated. */
    ghost predicate Valid()
      reads this
    {
      collected.Keys !! generated
    }

    /** The collection after naming the schemas, compared to what it was. */
    ghost predicate Collecting(before: Collection, cs: seq<Collected>)
      reads this
    {
      collected == CollectEach(generated, before, cs)
    }

    constructor (pascal: Pascal)
      ensures Valid() && collected == map[] && generated == BuiltIn(pascal)
      ensures this.pascal == pascal && filteredMethodNames == SUPPORTED_ETH_METHODS
    {
      this.pascal := pascal;
      collected := map[];
      generated := BuiltIn(pascal);
      filteredMethodNames := SUPPORTED_ETH_METHODS;
    }

    method Collect(name: string, source: Source)
      requires Valid()
      modifies this`collected
      ensures Valid() && collected == CollectOne(generated, old(collected), Collected(name, source))
    {
      if name !in generated && name !in collected {
        collected := collected[name := source];
      }
    }

    method CollectExtraType(name: string)
      requires Valid()
      modifies this`collected
      ensures Valid() && Collecting(old(collected), [Collected(name, ByReference("#/components/schemas/" + name))])
    {
      Collect(name, ByReference("#/components/schemas/" + name));
    }

    /** Name the type of a schema, collecting the types that the name needs. */
    method Info(schema: Schema) returns (r: Supported<Option<TypeInfo>>)
      requires Valid()
      modifies this`collected
      ensures r == InfoOf(pascal, schema)
      ensures Valid() && (r.Ok? ==> Collecting(old(collected), Collects(pascal, schema)))
      decreases schema, 1
    {
      match schema {
        case Reference(reference) =>
          var name := ReferenceToName(pascal, reference);
          Collect(name, ByReference(reference));
          return Ok(Some(Plain(name)));
        case Lit(ArrayOf(Some(items))) =>
          var info := Info(items);
          var i :- Expect(info);
          return Ok(Some(TypeInfo(i.name, true, Yes)));
        case AllOf(parts) =>
          var names :- Names(parts);
          return Ok(Some(Plain(Join(names, "And"))));
        case AnyOf(items) =>
          r := Choice(schema, items);
        case OneOf(items) =>
          r := Choice(schema, items);
        case Lit(Null) =>
          return Ok(Some(Plain("Null")));
        case Lit(Text(text)) =>
          var info :- DigitType(text);
          return Ok(Some(info));
        case Lit(Boolean) =>
          return Ok(Some(Plain("bool")));
        case Object(_) =>
          return Ok(None);
        case _ =>
          return Panic;
      }
    }

    /** A choice: several alternatives make a type of their own, which is collected under their joined
        name; those that stand for a missing value make it optional. */
    method Choice(schema: Schema, items: seq<Schema>) returns (r: Supported<Option<TypeInfo>>)
      requires Valid()
      modifies this`collected
      ensures r == ChoiceOf(NamesOf(pascal, items))
      ensures Valid()
      ensures r.Ok? ==> Collecting(old(collected), CollectsAll(pascal, items) + CollectsChoice(pascal, schema, items))
      decreases items, 1
    {
      var names :- Names(items);
      var kept := NonNull(names);
      var name := Join(kept, "Or");
      ghost var before := collected;
      if |kept| > 1 {
        Collect(name, BySchema(schema));
      }
      assert collected == CollectEach(generated, before, CollectsChoice(pascal, schema, items));
      CollectEachConcat(generated, old(collected), CollectsAll(pascal, items), CollectsChoice(pascal, schema, items));
      return Ok(Some(Alternatives(names)));
    }

    method Names(schemas: seq<Schema>) returns (r: Supported<seq<string>>)
      requires Valid()
      modifies this`collected
      ensures r == NamesOf(pascal, schemas)
      ensures Valid() && (r.Ok? ==> Collecting(old(collected), CollectsAll(pascal, schemas)))
      decreases schemas, 0
    {
      if schemas == [] {
        return Ok([]);
      }
      var info := Info(schemas[0]);
      var i :- Expect(info);
      var names :- Names(schemas[1..]);
      CollectEachConcat(generated, old(collected), Collects(pascal, schemas[0]), CollectsAll(pascal, schemas[1..]));
      return Ok([i.name] + names);
    }

    // ----- the content of a type -----

    method Fields(o: ObjectLiteral, properties: seq<Property>) returns (r: Supported<seq<Field>>)
      requires Valid()
      modifies this`collected
      ensures r == FieldsOf(pascal, o, properties)
      ensures Valid() && (r.Ok? ==> Collecting(old(collected), CollectsAll(pascal, PropertySchemas(properties))))
    {
      if properties == [] {
        return Ok([]);
      }
      var p := properties[0];
      var maybe := Info(p.schema);
      var info :- Expect(maybe);
      var required := if info.required == Yes && p.name !in o.required then No(true) else info.required;
      var field := Field(p.name, info.(required := required), false,
                         if p.name in o.legacyAliases then Some(o.legacyAliases[p.name]) else None);
      var fields :- Fields(o, properties[1..]);
      CollectEachConcat(generated, old(collected), Collects(pascal, p.schema),
                        CollectsAll(pascal, PropertySchemas(properties[1..])));
      assert PropertySchemas(properties)[1..] == PropertySchemas(properties[1..]);
      return Ok([field] + fields);
    }

    method Anonymous(part: Schema) returns (r: Supported<seq<Field>>)
      requires Valid()
      modifies this`collected
      ensures r == AnonymousFields(pascal, part)
      ensures Valid()
      ensures r.Ok? && part.Object? ==>
                Collecting(old(collected), CollectsAll(pascal, PropertySchemas(part.fields.properties)))
    {
      match part {
        case Object(o) => r := Fields(o, o.properties);
        case Lit(ObjectOf(o)) => r := Fields(o, o.properties);
        case _ => r := Panic;
      }
    }

    method Combined(parts: seq<Schema>) returns (r: Supported<seq<Field>>)
      requires Valid()
      modifies this`collected
      ensures r == CombinedFields(pascal, parts)
      ensures Valid() && (r.Ok? ==> Collecting(old(collected), CollectsAll(pascal, PartSchemas(parts))))
    {
      if parts == [] {
        return Ok([]);
      }
      var part := parts[0];
      OnlyObjectsAreAnonymous(pascal, part);
      ghost var schemas := OwnSchemas(part);
      var info :- Info(part);
      var fields;
      match info {
        case Some(i) =>
          CollectsAllOfOne(pascal, part);
          fields := [Field(i.name, i, true, None)];
        case None =>
          fields :- Anonymous(part);
      }
      assert part.Object? ==> info == None;
      assert Collecting(old(collected), CollectsAll(pascal, schemas));
      var rest :- Combined(parts[1..]);
      CollectsAllConcat(pascal, schemas, PartSchemas(parts[1..]));
      CollectEachConcat(generated, old(collected), CollectsAll(pascal, schemas),
                        CollectsAll(pascal, PartSchemas(parts[1..])));
      return Ok(fields + rest);
    }

    method Variants(items: seq<Schema>) returns (r: Supported<seq<TypeInfo>>)
      requires Valid()
      modifies this`collected
      ensures r == VariantsOf(pascal, items)
      ensures Valid() && (r.Ok? ==> Collecting(old(collected), CollectsAll(pascal, items)))
    {
      if items == [] {
        return Ok([]);
      }
      var maybe := Info(items[0]);
      var info :- Expect(maybe);
      var rest :- Variants(items[1..]);
      CollectEachConcat(generated, old(collected), Collects(pascal, items[0]), CollectsAll(pascal, items[1..]));
      return Ok((if IsNullName(info.name) then [] else [info]) + rest);
    }

    /** The content of the type of a schema, collecting what it refers to. */
    method GenerateType(schema: Schema) returns (r: Supported<Content>)
      requires Valid()
      modifies this`collected
      ensures r == ContentOf(pascal, schema)
      ensures Valid() && (r.Ok? ==> Collecting(old(collected), ContentCollects(pascal, schema)))
    {
      match schema {
        case Lit(ObjectOf(o)) =>
          var fields :- Fields(o, o.properties);
          return Ok(Struct(fields));
        case Object(o) =>
          var fields :- Fields(o, o.properties);
          return Ok(Struct(fields));
        case AllOf(parts) =>
          var fields :- Combined(parts);
          return Ok(Struct(fields));
        case AnyOf(items) =>
          var variants :- Variants(items);
          return Ok(Enum(variants));
        case OneOf(items) =>
          var variants :- Variants(items);
          return Ok(Enum(variants));
        case Lit(ArrayOf(Some(items))) =>
          var maybe := Info(items);
          var info :- Expect(maybe);
          CollectsAllOfOne(pascal, items);
          return Ok(TypeAlias(TypeInfo(info.name, true, Yes)));
        case Lit(Text(StringLiteral(None, None, None, None, Some(enumeration)))) =>
          return Ok(UntaggedEnum(enumeration));
        case _ =>
          return Panic;
      }
    }

    // ----- the methods of the interface -----

    method RpcParams(params: seq<RefOr<ContentDescriptor>>) returns (r: Supported<seq<RpcParam>>)
      requires Valid()
      modifies this`collected
      ensures r == RpcParamsOf(pascal, params)
      ensures Valid() && (r.Ok? ==> Collecting(old(collected), CollectsAll(pascal, ParamSchemas(params))))
    {
      if params == [] {
        return Ok([]);
      }
      match params[0] {
        case RefTo(_) =>
          return Panic;
        case Inline(d) =>
          var maybe := Info(d.schema);
          var info :- Expect(maybe);
          var rest :- RpcParams(params[1..]);
          CollectEachConcat(generated, old(collected), Collects(pascal, d.schema),
                            CollectsAll(pascal, ParamSchemas(params[1..])));
          assert ParamSchemas(params)[1..] == ParamSchemas(params[1..]);
          return Ok([RpcParam(d.name, info.(required := if d.required then Yes else No(true)))] + rest);
      }
    }

    method GenerateRpcMethod(m: Method) returns (r: Supported<RpcMethod>)
      requires Valid()
      modifies this`collected
      ensures r == RpcMethodOf(pascal, m)
      ensures Valid() && (r.Ok? ==> Collecting(old(collected), CollectsAll(pascal, MethodSchemas(m))))
    {
      var result;
      ghost var schemas := if m.result.Some? && m.result.value.Inline? then [m.result.value.value.schema] else [];
      match m.result {
        case None => result := NoResult;
        case Some(Inline(d)) =>
          var maybe := Info(d.schema);
          var info :- Expect(maybe);
          CollectsAllOfOne(pascal, d.schema);
          result := Typed(info);
        case Some(RefTo(reference)) => result := Literally(reference);
      }
      assert Collecting(old(collected), CollectsAll(pascal, schemas));
      var params :- RpcParams(m.params);
      CollectsAllConcat(pascal, schemas, ParamSchemas(m.params));
      CollectEachConcat(generated, old(collected), CollectsAll(pascal, schemas),
                        CollectsAll(pascal, ParamSchemas(m.params)));
      return Ok(RpcMethod(m.name, params, result));
    }

    /** Every wanted method, in the order of the document; a wrong number of them aborts. */
    method GenerateRpcMethods(specs: Specs) returns (r: Supported<seq<RpcMethod>>)
      requires Valid()
      modifies this`collected
      ensures Valid()
      ensures var wanted := WantedMethods(filteredMethodNames, specs);
              && (r.Ok? <==> wanted.Ok? && RpcMethodsOf(pascal, wanted.value).Ok?)
              && (r.Ok? ==> r == RpcMethodsOf(pascal, wanted.value)
                            && Collecting(old(collected), CollectsAll(pascal, AllMethodSchemas(wanted.value))))
    {
      hide RpcMethodsOf, AllMethodSchemas, CollectEach, CollectsAll, Select;
      var methods :- Select(filteredMethodNames, specs.methods);
      if |methods| != |filteredMethodNames| {
        return Panic;
      }
      r := EachRpcMethod(methods);
    }

    method EachRpcMethod(methods: seq<Method>) returns (r: Supported<seq<RpcMethod>>)
      requires Valid()
      modifies this`collected
      ensures Valid()
      ensures r.Ok? <==> RpcMethodsOf(pascal, methods).Ok?
      ensures r.Ok? ==> r == RpcMethodsOf(pascal, methods)
                        && Collecting(old(collected), CollectsAll(pascal, AllMethodSchemas(methods)))
    {
      assert Collecting(collected, CollectsAll(pascal, AllMethodSchemas([])));
      assert RpcMethodsOf(pascal, []) == Ok([]);
      hide RpcMethodOf, MethodSchemas, CollectEach, CollectsAll, RpcMethodsOf, AllMethodSchemas;
      var all: seq<RpcMethod> := [];
      assert methods[..0] == [];
      for i := 0 to |methods|
        invariant Valid()
        invariant Collecting(old(collected), CollectsAll(pascal, AllMethodSchemas(methods[..i])))
        invariant RpcMethodsOf(pascal, methods[..i]) == Ok(all)
      {
        FailingMethod(pascal, methods, i);
        MethodsAppend(pascal, methods[..i], methods[i]);
        assert methods[..i] + [methods[i]] == methods[..i + 1];
        var m :- GenerateRpcMethod(methods[i]);
        CollectEachConcat(generated, old(collected), CollectsAll(pascal, AllMethodSchemas(methods[..i])),
                          CollectsAll(pascal, MethodSchemas(methods[i])));
        all := all + [m];
      }
      assert methods[..|methods|] == methods;
      return Ok(all);
    }

    // ----- working off the collection -----

    /** Generate and print one type of the round that is being worked off. */
    method GenerateOne(specs: Specs, name: string, source: Source,
                       ghost roots: Collection, ghost blocked: set<string>, ghost p: Progress)
      returns (r: Supported<Emission>)
      requires name in p.pending && p.pending[name] == source && p.next == collected
      requires generated == blocked + p.done.Keys + p.pending.Keys
      requires OnTrack(pascal, specs, roots, blocked, p)
      modifies this`collected
      ensures Valid()
      ensures r.Ok? ==>
                && r.value.name == name
                && OnTrack(pascal, specs, roots, blocked,
                           Progress(p.code + [r.value], p.done[name := source], p.pending - {name}, collected))
      ensures !r.Ok? ==> Obstructed(pascal, specs, roots, blocked)
    {
      hide OnTrack, ContentOf, ContentCollects, SchemaOf, Generated, CollectEach, Obstructed;
      OnTrackIsDisjoint(pascal, specs, roots, blocked, p);
      FailureIsObstruction(pascal, specs, roots, blocked, p, name);
      var schema := SchemaOf(specs, source);
      if schema.None? {
        return Panic;
      }
      var content :- GenerateType(schema.value);
      if content == Enum([]) {
        return Panic;
      }
      GeneratedIsOnTrack(pascal, specs, roots, blocked, p, name, schema.value, content);
      GeneratedIs(pascal, blocked, p, name, schema.value, content);
      r := Ok(Emission(name, content));
    }

    /** Generate the types of one round, which were taken out of the collection. They may be generated in
        any order. */
    method GenerateRound(specs: Specs, taken: Collection, emitted: seq<Emission>,
                         ghost roots: Collection, ghost blocked: set<string>, ghost before: Collection)
      returns (code: Supported<seq<Emission>>, ghost done: Collection)
      requires Valid() && generated == blocked + before.Keys + taken.Keys
      requires OnTrack(pascal, specs, roots, blocked, Progress(emitted, before, taken, collected))
      modifies this`collected
      ensures Valid()
      ensures code.Ok? ==>
                && generated == blocked + done.Keys
                && OnTrack(pascal, specs, roots, blocked, Progress(code.value, done, map[], collected))
      ensures !code.Ok? ==> Obstructed(pascal, specs, roots, blocked)
    {
      hide OnTrack, Obstructed;
      var round, all := taken, emitted;
      done := before;
      while round != map[]
        invariant generated == blocked + done.Keys + round.Keys
        invariant Valid() && OnTrack(pascal, specs, roots, blocked, Progress(all, done, round, collected))
        decreases |round|
      {
        var name :| name in round;
        var source := round[name];
        var e := GenerateOne(specs, name, source, roots, blocked, Progress(all, done, round, collected));
        if !e.Ok? {
          return Panic, done;
        }
        all, done, round := all + [e.value], done[name := source], round - {name};
      }
      code := Ok(all);
    }

    /** Generate what has been collected, round by round, until nothing new is collected. `done` records
        the source that each emitted name was generated from. */
    method GenerateTypes(specs: Specs) returns (code: Supported<seq<Emission>>, ghost done: Collection)
      requires Valid()
      modifies this`collected, this`generated
      ensures Valid()
      ensures code.Ok? ==>
                && collected == map[] && generated == old(generated) + done.Keys
                && OnTrack(pascal, specs, old(collected), old(generated), Progress(code.value, done, map[], map[]))
      ensures !code.Ok? ==> Obstructed(pascal, specs, old(collected), old(generated))
    {
      hide OnTrack, UniverseNames, Obstructed;
      ghost var roots, blocked := collected, generated;
      var emitted: seq<Emission> := [];
      done := map[];
      StartIsOnTrack(pascal, specs, roots, blocked);
      while true
        invariant Valid() && generated == blocked + done.Keys
        invariant OnTrack(pascal, specs, roots, blocked, Progress(emitted, done, map[], collected))
        decreases UniverseNames(pascal, specs, roots) - generated
      {
        var taken := collected;
        collected := map[];
        generated := generated + taken.Keys;
        if taken == map[] {
          break;
        }
        RoundShrinksUniverse(pascal, specs, roots, blocked, Progress(emitted, done, map[], taken));
        NextRoundIsOnTrack(pascal, specs, roots, blocked, Progress(emitted, done, map[], taken));
        var round, after := GenerateRound(specs, taken, emitted, roots, blocked, done);
        if !round.Ok? {
          return Panic, done;
        }
        emitted, done := round.value, after;
      }
      code := Ok(emitted);
    }
  }
}
