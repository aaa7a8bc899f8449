/** The code generation program. */
module Codegen {
  import opened Outcomes
  import opened OpenRpc
  import opened TypeNaming
  import opened TypeWorklist
  import opened TypeGenerator
  import opened SchemaNames
  import opened GeneratedTypes
  import opened PrintedTypes
  import opened TypeShapes

  /** The methods of a document that are generated, and the roots that they give rise to. */
  function DocumentMethods(specs: Specs): Supported<seq<Method>> {
    WantedMethods(SUPPORTED_ETH_METHODS, specs)
  }

  function DocumentRoots(pascal: Pascal, specs: Specs): Collection {
    var methods := DocumentMethods(specs);
    if methods.Ok? then Roots(pascal, methods.value) else map[]
  }

  /** The names of the types of a document: those that can be reached. */
  ghost function DocumentTypes(pascal: Pascal, specs: Specs): set<string> {
    ReachableNames(pascal, specs, DocumentRoots(pascal, specs), BuiltIn(pascal))
  }

  /** A type that can be reached in the document without passing through a built-in name. */
  ghost predicate InDocument(pascal: Pascal, specs: Specs, c: Collected) {
    Reachable(pascal, specs, DocumentRoots(pascal, specs), BuiltIn(pascal), c)
  }

  /** The emission is the printout of a type of the document with that name. */
  ghost predicate IsPrintout(pascal: Pascal, specs: Specs, e: Emission) {
    exists c: Collected ::
      InDocument(pascal, specs, c) && c.name == e.name && Printout(pascal, specs, c) == Ok(e.content)
  }

  /** The emission describes, by its structure, the schema of a type of the document with that name. */
  ghost predicate IsDescription(pascal: Pascal, specs: Specs, e: Emission) {
    exists c: Collected ::
      InDocument(pascal, specs, c) && c.name == e.name && SchemaIsDescribed(pascal, specs, c, e.content)
  }

  predicate SchemaIsDescribed(pascal: Pascal, specs: Specs, c: Collected, content: Content) {
    SchemaOf(specs, c.source).Some? && ContentDescribes(pascal, SchemaOf(specs, c.source).value, content)
  }

  ghost predicate EmitsDescriptions(pascal: Pascal, specs: Specs, code: seq<Emission>) {
    forall e | e in code :: IsDescription(pascal, specs, e)
  }

  ghost predicate EmitsPrintouts(pascal: Pascal, specs: Specs, code: seq<Emission>) {
    forall e | e in code :: IsPrintout(pascal, specs, e)
  }

  /** Every type of the document can be printed. */
  ghost predicate DocumentIsPrintable(pascal: Pascal, specs: Specs) {
    forall c | InDocument(pascal, specs, c) :: Printout(pascal, specs, c).Ok?
  }

  /** A type of the document prints the name of the schema `s`. */
  ghost predicate TypePrints(pascal: Pascal, specs: Specs, c: Collected, s: Schema) {
    && InDocument(pascal, specs, c) && Printout(pascal, specs, c).Ok?
    && SchemaOf(specs, c.source).Some? && s in PrintedSchemas(pascal, SchemaOf(specs, c.source).value)
  }

  /** Where a type of the document prints the name, the name dangles. */
  ghost predicate DanglesInDocument(pascal: Pascal, specs: Specs, types: set<string>, name: string) {
    exists c, s :: TypePrints(pascal, specs, c, s) && Dangles(pascal, types, s) && TypeName(pascal, s) == name
  }

  /** Nothing that a type of the document prints dangles. */
  ghost predicate DocumentIsClosed(pascal: Pascal, specs: Specs, types: set<string>) {
    forall c, s | TypePrints(pascal, specs, c, s) :: !Dangles(pascal, types, s)
  }

  /** Different schemas that the document can have collected have different names. */
  ghost predicate DocumentIsInjective(pascal: Pascal, specs: Specs) {
    NamingIsInjective(pascal, specs, DocumentRoots(pascal, specs), BuiltIn(pascal))
  }

  /** An extra root, the types of the methods, then everything they refer to.

      The methods are generated exactly when the document has as many wanted methods as there are names and
      all are supported. The types are generated unless some type of the document cannot be printed; with
      injective naming, exactly when all of them can. Each emitted name is emitted once, is no built-in
      name, and comes with what is printed for a type of the document.

      With names that determine references, the emitted names are exactly those of the types of the
      document. With injective naming, the printed names that mean nothing are exactly those that dangle in
      the document, so all of them are defined exactly when none dangles; and likewise for the methods. */
  method GenerateAll(pascal: Pascal, specs: Specs)
    returns (methods: Supported<seq<RpcMethod>>, code: Supported<seq<Emission>>)
    ensures methods.Ok? <==> DocumentMethods(specs).Ok? && RpcMethodsOf(pascal, DocumentMethods(specs).value).Ok?
    ensures methods.Ok? ==> methods == RpcMethodsOf(pascal, DocumentMethods(specs).value)
    ensures methods.Ok? ==> MethodsDescribe(pascal, DocumentMethods(specs).value, methods.value)
    ensures code.Ok? ==> methods.Ok?
    ensures methods.Ok? && DocumentIsPrintable(pascal, specs) ==> code.Ok?
    ensures methods.Ok? && DocumentIsInjective(pascal, specs) ==> (code.Ok? <==> DocumentIsPrintable(pascal, specs))
    ensures code.Ok? ==> |EmittedNames(code.value)| == |code.value| && EmittedNames(code.value) !! BuiltIn(pascal)
    ensures code.Ok? ==> EmitsPrintouts(pascal, specs, code.value) && EmitsDescriptions(pascal, specs, code.value)
    ensures code.Ok? ==> "TransactionUnsigned" in BuiltIn(pascal) + EmittedNames(code.value)
    ensures code.Ok? && NamesDetermineReferences(pascal, specs, DocumentRoots(pascal, specs), BuiltIn(pascal)) ==>
              EmittedNames(code.value) == DocumentTypes(pascal, specs)
    ensures code.Ok? && DocumentIsInjective(pascal, specs) ==> EmittedNames(code.value) == DocumentTypes(pascal, specs)
    ensures code.Ok? && DocumentIsClosed(pascal, specs, {}) ==> AllPrintedNames(code.value) <= DefinedNames(code.value)
    ensures code.Ok? && DocumentIsInjective(pascal, specs) ==>
              forall name :: name in AllPrintedNames(code.value) - DefinedNames(code.value) <==>
                               DanglesInDocument(pascal, specs, DocumentTypes(pascal, specs), name)
    ensures code.Ok? && DocumentIsInjective(pascal, specs) ==>
              (AllPrintedNames(code.value) <= DefinedNames(code.value) <==>
                 DocumentIsClosed(pascal, specs, DocumentTypes(pascal, specs)))
    ensures code.Ok? ==>
              (MethodNames(methods.value) <= DefinedNames(code.value) <==>
                 MethodsAreClosed(pascal, EmittedNames(code.value), DocumentMethods(specs).value, methods.value))
    ensures code.Ok? && DocumentIsInjective(pascal, specs) ==>
              (MethodNames(methods.value) <= DefinedNames(code.value) <==>
                 MethodsAreClosed(pascal, DocumentTypes(pascal, specs), DocumentMethods(specs).value, methods.value))
  {
    hide OnTrack, Obstructed, IsPrintout, EmitsDescriptions, MethodsDescribe, EmittedNames, Printout, Reachable,
         NamesDetermineReferences, DocumentIsInjective,
         EmitsPrintouts, DocumentTypes, DocumentIsClosed, DanglesInDocument, DocumentIsPrintable, PrintedNames,
         MethodsAreClosed, MethodTypes, MethodNames, LiteralResults, BuiltIn, AllPrintedNames, DefinedNames;
    var generator := new Generator(pascal);
    generator.CollectExtraType("TransactionUnsigned");
    methods := generator.GenerateRpcMethods(specs);
    if !methods.Ok? {
      return methods, Panic;
    }
    ghost var wanted := DocumentMethods(specs).value;
    MethodsAreDescribed(pascal, wanted);
    CollectEachConcat(BuiltIn(pascal), map[], ExtraRoot(), CollectsAll(pascal, AllMethodSchemas(wanted)));
    assert generator.collected == DocumentRoots(pascal, specs);
    ghost var done;
    code, done := generator.GenerateTypes(specs);
    if code.Ok? {
      FinishedRun(pascal, specs, code.value, done);
      EachIsDescription(pascal, specs, code.value);
      ExtraRootIsEmitted(pascal, specs, code.value, done);
    } else {
      ObstructedIsNotPrintable(pascal, specs);
    }
  }

  lemma ObstructedIsNotPrintable(pascal: Pascal, specs: Specs)
    ensures Obstructed(pascal, specs, DocumentRoots(pascal, specs), BuiltIn(pascal))
            <==> !DocumentIsPrintable(pascal, specs)
  {
    hide Reachable, Printout, BuiltIn, DocumentRoots;
    if c: Collected :| InDocument(pascal, specs, c) && !Printout(pascal, specs, c).Ok? {
      assert Obstructed(pascal, specs, DocumentRoots(pascal, specs), BuiltIn(pascal));
    }
  }

  lemma FinishedRun(pascal: Pascal, specs: Specs, code: seq<Emission>, done: Collection)
    requires DocumentMethods(specs).Ok? && RpcMethodsOf(pascal, DocumentMethods(specs).value).Ok?
    requires Finished(pascal, specs, DocumentRoots(pascal, specs), BuiltIn(pascal), code, done)
    ensures |EmittedNames(code)| == |code| && EmittedNames(code) !! BuiltIn(pascal)
    ensures EmitsPrintouts(pascal, specs, code)
    ensures NamesDetermineReferences(pascal, specs, DocumentRoots(pascal, specs), BuiltIn(pascal)) ==>
              EmittedNames(code) == DocumentTypes(pascal, specs)
    ensures DocumentIsInjective(pascal, specs) ==>
              EmittedNames(code) == DocumentTypes(pascal, specs) && DocumentIsPrintable(pascal, specs)
    ensures DocumentIsClosed(pascal, specs, {}) ==> AllPrintedNames(code) <= DefinedNames(code)
    ensures DocumentIsInjective(pascal, specs) ==>
              && (forall name :: name in AllPrintedNames(code) - DefinedNames(code) <==>
                                   DanglesInDocument(pascal, specs, DocumentTypes(pascal, specs), name))
              && (AllPrintedNames(code) <= DefinedNames(code) <==>
                    DocumentIsClosed(pascal, specs, DocumentTypes(pascal, specs)))
    ensures var wanted := DocumentMethods(specs).value;
            var rpc := RpcMethodsOf(pascal, wanted).value;
            MethodNames(rpc) <= DefinedNames(code) <==> MethodsAreClosed(pascal, EmittedNames(code), wanted, rpc)
  {
    hide *;
    var roots, blocked := DocumentRoots(pascal, specs), BuiltIn(pascal);
    EmittedAtMostOnce(pascal, specs, roots, blocked, code, done);
    EachIsPrintout(pascal, specs, code, done);
    if NamesDetermineReferences(pascal, specs, roots, blocked) {
      EmittedAreDocumentTypes(pascal, specs, code, done);
    }
    if DocumentIsClosed(pascal, specs, {}) {
      ClosedDocument(pascal, specs, code, done);
    }
    if DocumentIsInjective(pascal, specs) {
      InjectiveDocument(pascal, specs, code, done);
      FinishedIsPrintable(pascal, specs, code, done);
      forall name
        ensures name in AllPrintedNames(code) - DefinedNames(code) <==>
                  DanglesInDocument(pascal, specs, DocumentTypes(pascal, specs), name)
      {
        UndefinedDangles(pascal, specs, code, done, name);
      }
      NothingDangles(pascal, specs, DocumentTypes(pascal, specs), AllPrintedNames(code), DefinedNames(code));
    }
    RootsOfMethods(pascal, specs);
    MethodTypesAreDefined(pascal, specs, DocumentMethods(specs).value, code, done);
  }

  lemma EachIsDescription(pascal: Pascal, specs: Specs, code: seq<Emission>)
    requires EmitsPrintouts(pascal, specs, code)
    ensures EmitsDescriptions(pascal, specs, code)
  {
    hide InDocument, Printout;
    forall e | e in code
      ensures IsDescription(pascal, specs, e)
    {
      assert IsPrintout(pascal, specs, e);
      var c: Collected :| InDocument(pascal, specs, c) && c.name == e.name
                          && Printout(pascal, specs, c) == Ok(e.content);
      PrintoutIsDescribed(pascal, specs, c);
    }
  }

  lemma PrintoutIsDescribed(pascal: Pascal, specs: Specs, c: Collected)
    requires Printout(pascal, specs, c).Ok?
    ensures SchemaIsDescribed(pascal, specs, c, Printout(pascal, specs, c).value)
  {
    hide ContentOf, ContentDescribes;
    ContentIsDescribed(pascal, SchemaOf(specs, c.source).value);
  }

  /** A schema that a type can be printed for: of a kind that has content, everything that it refers to has
      a name, and a choice has an alternative with a value. */
  predicate Printable(pascal: Pascal, schema: Schema) {
    && HasContent(schema) && AllHaveNames(pascal, Children(schema))
    && (schema.AnyOf? || schema.OneOf? ==>
          exists i :: 0 <= i < |ItemsOf(schema)| && !SaysMissing(pascal, ItemsOf(schema)[i]))
  }

  /** A type is printed exactly if the document has its schema and it is printable. */
  lemma PrintoutExact(pascal: Pascal, specs: Specs, c: Collected)
    ensures Printout(pascal, specs, c).Ok? <==>
              SchemaOf(specs, c.source).Some? && Printable(pascal, SchemaOf(specs, c.source).value)
  {
    if SchemaOf(specs, c.source).Some? {
      var schema := SchemaOf(specs, c.source).value;
      ContentIsSupported(pascal, schema);
      if ContentOf(pascal, schema).Ok? {
        ContentIsDescribed(pascal, schema);
        if schema.AnyOf? || schema.OneOf? {
          NoVariants(pascal, ItemsOf(schema), ContentOf(pascal, schema).value.variants);
        }
      }
    }
    hide ContentOf, VariantsDescribe, SaysMissing, AllHaveNames, Children;
  }

  lemma {:induction false} NoVariants(pascal: Pascal, items: seq<Schema>, infos: seq<TypeInfo>)
    requires VariantsDescribe(pascal, items, infos)
    ensures infos == [] <==> forall i | 0 <= i < |items| :: SaysMissing(pascal, items[i])
  {
    hide SaysMissing, Describes;
    if items == [] {
    } else {
      assert forall i | 0 < i < |items| :: items[i] == items[1..][i - 1];
      if SaysMissing(pascal, items[0]) {
        NoVariants(pascal, items[1..], infos);
      }
    }
  }

  lemma ExtraRootIsEmitted(pascal: Pascal, specs: Specs, code: seq<Emission>, done: Collection)
    requires DocumentMethods(specs).Ok?
    requires Finished(pascal, specs, DocumentRoots(pascal, specs), BuiltIn(pascal), code, done)
    ensures "TransactionUnsigned" in BuiltIn(pascal) + EmittedNames(code)
  {
    hide BuiltIn, Justified, Closed, IsEmission, EmittedNames;
    var cs := ExtraRoot() + CollectsAll(pascal, AllMethodSchemas(DocumentMethods(specs).value));
    CollectEachKeys(BuiltIn(pascal), map[], cs);
    assert cs[0] in cs && cs[0].name == "TransactionUnsigned";
    DoneIsEmitted(pascal, specs, DocumentRoots(pascal, specs), BuiltIn(pascal), code, done);
  }

  lemma EmittedAreDocumentTypes(pascal: Pascal, specs: Specs, code: seq<Emission>, done: Collection)
    requires Finished(pascal, specs, DocumentRoots(pascal, specs), BuiltIn(pascal), code, done)
    requires NamesDetermineReferences(pascal, specs, DocumentRoots(pascal, specs), BuiltIn(pascal))
    ensures EmittedNames(code) == DocumentTypes(pascal, specs)
  {
    hide Finished, NamesDetermineReferences, DocumentRoots, ReachableNames, BuiltIn;
    EmittedAreReachableNames(pascal, specs, DocumentRoots(pascal, specs), BuiltIn(pascal), code, done);
  }

  lemma InjectiveDocument(pascal: Pascal, specs: Specs, code: seq<Emission>, done: Collection)
    requires Finished(pascal, specs, DocumentRoots(pascal, specs), BuiltIn(pascal), code, done)
    requires DocumentIsInjective(pascal, specs)
    ensures NamesDetermineReferences(pascal, specs, DocumentRoots(pascal, specs), BuiltIn(pascal))
    ensures EmittedNames(code) == DocumentTypes(pascal, specs)
  {
    hide Finished, NamesDetermineReferences, NamingIsInjective, DocumentRoots, DocumentTypes, BuiltIn;
    InjectiveNamingSuffices(pascal, specs, DocumentRoots(pascal, specs), BuiltIn(pascal));
    EmittedAreDocumentTypes(pascal, specs, code, done);
  }

  lemma NothingDangles(pascal: Pascal, specs: Specs, types: set<string>, printed: set<string>, defined: set<string>)
    requires forall name :: name in printed - defined <==> DanglesInDocument(pascal, specs, types, name)
    ensures printed <= defined <==> DocumentIsClosed(pascal, specs, types)
  {
    hide TypePrints, Dangles, TypeName;
    if c, s :| TypePrints(pascal, specs, c, s) && Dangles(pascal, types, s) {
      assert DanglesInDocument(pascal, specs, types, TypeName(pascal, s));
      assert TypeName(pascal, s) in printed - defined;
    } else {
      assert forall name :: !DanglesInDocument(pascal, specs, types, name);
      assert forall name | name in printed :: name in printed - defined || name in defined;
    }
  }

  /** What an emitted type prints, a type of the document prints. */
  lemma EmittedTypePrints(pascal: Pascal, specs: Specs, code: seq<Emission>, done: Collection, i: nat, s: Schema)
    returns (c: Collected)
    requires Finished(pascal, specs, DocumentRoots(pascal, specs), BuiltIn(pascal), code, done)
    requires i < |code| && IsPrintedBy(pascal, specs, done, code[i], s)
    ensures TypePrints(pascal, specs, c, s)
  {
    hide Finished, Reachable, Traced, Printout, DocumentRoots, BuiltIn, SchemaOf, PrintedSchemas;
    EmittedIsReachable(pascal, specs, DocumentRoots(pascal, specs), BuiltIn(pascal), code, done, i);
    c := Collected(code[i].name, done[code[i].name]);
  }

  lemma ClosedDocument(pascal: Pascal, specs: Specs, code: seq<Emission>, done: Collection)
    requires Finished(pascal, specs, DocumentRoots(pascal, specs), BuiltIn(pascal), code, done)
    requires DocumentIsClosed(pascal, specs, {})
    ensures AllPrintedNames(code) <= DefinedNames(code)
  {
    hide Finished, TypePrints, IsPrintedBy, DocumentRoots, BuiltIn, AllPrintedNames, DefinedNames, EmittedNames,
         Dangles, TypeName;
    forall name | name in AllPrintedNames(code)
      ensures name in DefinedNames(code)
    {
      AllPrintedNamesAreDefined(pascal, specs, DocumentRoots(pascal, specs), code, done, name);
      if PrintsDangling(pascal, specs, code, done, name) {
        var i, s :| 0 <= i < |code| && IsPrintedBy(pascal, specs, done, code[i], s)
                    && Dangles(pascal, EmittedNames(code), s);
        var c := EmittedTypePrints(pascal, specs, code, done, i, s);
        DanglesWithFewer(pascal, EmittedNames(code), s);
        assert false;
      }
    }
  }

  lemma DanglesWithFewer(pascal: Pascal, types: set<string>, s: Schema)
    ensures Dangles(pascal, types, s) ==> Dangles(pascal, {}, s)
  {
  }

  /** With injective naming, the emitted types print what the types of the document print. */
  lemma UndefinedDangles(pascal: Pascal, specs: Specs, code: seq<Emission>, done: Collection, name: string)
    requires Finished(pascal, specs, DocumentRoots(pascal, specs), BuiltIn(pascal), code, done)
    requires DocumentIsInjective(pascal, specs)
    ensures name in AllPrintedNames(code) - DefinedNames(code) <==>
              DanglesInDocument(pascal, specs, DocumentTypes(pascal, specs), name)
  {
    hide Finished, TypePrints, IsPrintedBy, DocumentRoots, DocumentTypes, BuiltIn, AllPrintedNames, DefinedNames,
         EmittedNames, Dangles, TypeName, DocumentIsInjective;
    InjectiveDocument(pascal, specs, code, done);
    AllPrintedNamesAreDefined(pascal, specs, DocumentRoots(pascal, specs), code, done, name);
    var types := DocumentTypes(pascal, specs);
    if PrintsDangling(pascal, specs, code, done, name) {
      var i, s :| 0 <= i < |code| && IsPrintedBy(pascal, specs, done, code[i], s)
                  && Dangles(pascal, types, s) && TypeName(pascal, s) == name;
      var c := EmittedTypePrints(pascal, specs, code, done, i, s);
    }
    if DanglesInDocument(pascal, specs, types, name) {
      var c, s :| TypePrints(pascal, specs, c, s) && Dangles(pascal, types, s) && TypeName(pascal, s) == name;
      var i := PrintedByEmitted(pascal, specs, code, done, c, s);
      assert IsPrintedBy(pascal, specs, done, code[i], s) && Dangles(pascal, EmittedNames(code), s);
      assert PrintsDangling(pascal, specs, code, done, name);
    }
  }

  lemma PrintedByEmitted(pascal: Pascal, specs: Specs, code: seq<Emission>, done: Collection, c: Collected, s: Schema)
    returns (i: nat)
    requires Finished(pascal, specs, DocumentRoots(pascal, specs), BuiltIn(pascal), code, done)
    requires DocumentIsInjective(pascal, specs) && TypePrints(pascal, specs, c, s)
    ensures i < |code| && IsPrintedBy(pascal, specs, done, code[i], s)
  {
    hide Finished, NamesDetermineReferences, NamingIsInjective, Reachable, Traced, DocumentRoots, BuiltIn, SchemaOf,
         PrintedSchemas, Printout, DocumentTypes;
    i := EmittedUnder(pascal, specs, code, done, c);
  }

  /** With injective naming, every type of the document is emitted under its name, from its own schema. */
  lemma EmittedUnder(pascal: Pascal, specs: Specs, code: seq<Emission>, done: Collection, c: Collected)
    returns (i: nat)
    requires Finished(pascal, specs, DocumentRoots(pascal, specs), BuiltIn(pascal), code, done)
    requires DocumentIsInjective(pascal, specs) && InDocument(pascal, specs, c)
    ensures i < |code| && code[i].name == c.name && c.name in done
    ensures SchemaOf(specs, done[c.name]) == SchemaOf(specs, c.source)
    ensures Printout(pascal, specs, Collected(c.name, done[c.name])) == Ok(code[i].content)
  {
    hide Finished, NamesDetermineReferences, NamingIsInjective, Reachable, Traced, DocumentRoots, BuiltIn, SchemaOf,
         Printout, DocumentTypes;
    var roots, blocked := DocumentRoots(pascal, specs), BuiltIn(pascal);
    InjectiveDocument(pascal, specs, code, done);
    EmittedIffReachable(pascal, specs, roots, blocked, code, done, c.name);
    i :| 0 <= i < |code| && code[i].name == c.name;
    EmittedIsReachable(pascal, specs, roots, blocked, code, done, i);
    SameSchema(pascal, specs, roots, blocked, Collected(c.name, done[c.name]), c);
  }

  lemma RootsOfMethods(pascal: Pascal, specs: Specs)
    requires DocumentMethods(specs).Ok?
    ensures DocumentRoots(pascal, specs) == Roots(pascal, DocumentMethods(specs).value)
  {
  }

  lemma EachIsPrintout(pascal: Pascal, specs: Specs, code: seq<Emission>, done: Collection)
    requires Finished(pascal, specs, DocumentRoots(pascal, specs), BuiltIn(pascal), code, done)
    ensures EmitsPrintouts(pascal, specs, code)
  {
    hide Finished, Reachable, Traced, Printout, DocumentRoots, BuiltIn;
    forall e | e in code
      ensures IsPrintout(pascal, specs, e)
    {
      var i :| 0 <= i < |code| && code[i] == e;
      EmittedIsReachable(pascal, specs, DocumentRoots(pascal, specs), BuiltIn(pascal), code, done, i);
      assert InDocument(pascal, specs, Collected(e.name, done[e.name]));
    }
  }

  /** With injective naming, a run that does not abort has printed every type of the document. */
  lemma FinishedIsPrintable(pascal: Pascal, specs: Specs, code: seq<Emission>, done: Collection)
    requires Finished(pascal, specs, DocumentRoots(pascal, specs), BuiltIn(pascal), code, done)
    requires DocumentIsInjective(pascal, specs)
    ensures DocumentIsPrintable(pascal, specs)
  {
    hide Finished, InDocument, DocumentRoots, BuiltIn, DocumentIsInjective, ContentOf;
    forall c | InDocument(pascal, specs, c)
      ensures Printout(pascal, specs, c).Ok?
    {
      var i := EmittedUnder(pascal, specs, code, done, c);
    }
  }
}
