/** The parts of an OpenRPC document that type generation looks at. */
module OpenRpc {
  import opened Outcomes

  /** Titles and descriptions are left out: a schema is its contents. */
  datatype Schema =
    | Reference(reference: string)
    | AllOf(allOf: seq<Schema>)
    | AnyOf(anyOf: seq<Schema>)
    | OneOf(oneOf: seq<Schema>)
    | Lit(literal: Literal)
    | Object(fields: ObjectLiteral)

  datatype Literal =
    | Boolean
    | Integer
    | Number
    | Text(text: StringLiteral)
    | ObjectOf(fields: ObjectLiteral)
    | ArrayOf(items: Option<Schema>)
    | Null

  /** Lengths and formats are present or absent. */
  datatype StringLiteral = StringLiteral(minLength: Option<nat>, maxLength: Option<nat>, pattern: Option<string>,
                                         format: Option<nat>, enumeration: Option<seq<string>>)

  /** The properties in the order of their names. */
  datatype ObjectLiteral = ObjectLiteral(properties: seq<Property>, legacyAliases: map<string, string>,
                                         required: seq<string>)

  datatype Property = Property(name: string, schema: Schema)

  datatype RefOr<T> = Inline(value: T) | RefTo(reference: string)

  datatype ContentDescriptor = ContentDescriptor(name: string, required: bool, schema: Schema)

  datatype Method = Method(name: string, params: seq<RefOr<ContentDescriptor>>,
                           result: Option<RefOr<ContentDescriptor>>)

  datatype Specs = Specs(methods: seq<RefOr<Method>>, schemas: Option<map<string, Schema>>)

  /** The components of a path; there is always at least one. */
  function Split(s: string): (parts: seq<string>)
    ensures parts != []
  {
    if s == "" then [""]
    else
      var tail := Split(s[1..]);
      if s[0] == '/' then [""] + tail else [[s[0]] + tail[0]] + tail[1..]
  }

  /** A reference leads to a component schema by the fourth part of its path. */
  function GetSchema(specs: Specs, reference: string): Option<Schema> {
    var path := Split(reference);
    if |path| < 4 || path[0] != "#" || path[1] != "components" || path[2] != "schemas" then None else
      var schemas :- specs.schemas;
      if path[3] in schemas then Some(schemas[path[3]]) else None
  }

  /** The components joined again. */
  function Path(parts: seq<string>): string
    requires parts != []
  {
    if |parts| == 1 then parts[0] else parts[0] + "/" + Path(parts[1..])
  }

  /** Splitting is exact: the components contain no separator and make up the path. */
  lemma {:induction false} SplitExact(s: string)
    ensures Path(Split(s)) == s
    ensures forall i | 0 <= i < |Split(s)| :: '/' !in Split(s)[i]
  {
    if s == "" {
    } else {
      SplitExact(s[1..]);
      var tail := Split(s[1..]);
      assert s == [s[0]] + s[1..];
      if s[0] == '/' {
        assert ([""] + tail)[1..] == tail;
        assert "" + "/" + Path(tail) == s;
      } else {
        var parts := [[s[0]] + tail[0]] + tail[1..];
        assert parts[1..] == tail[1..];
        if |tail| == 1 {
          assert Path(parts) == [s[0]] + tail[0];
        } else {
          assert [s[0]] + (tail[0] + "/" + Path(tail[1..])) == [s[0]] + tail[0] + "/" + Path(tail[1..]);
        }
      }
    }
  }

  /** The first component ends at the first separator. */
  lemma {:induction false} SplitFirst(name: string, rest: string)
    requires '/' !in name
    ensures Split(name) == [name]
    ensures Split(name + "/" + rest) == [name] + Split(rest)
  {
    var s := name + "/" + rest;
    if name == "" {
      assert s[0] == '/' && s[1..] == rest;
    } else {
      SplitFirst(name[1..], rest);
      assert name == [name[0]] + name[1..];
      assert s[1..] == name[1..] + "/" + rest;
      assert name[0] in name;
      assert s[0] != '/' && [s[0]] + name[1..] == name;
    }
  }

  const SCHEMAS: string := "#/components/schemas/"

  /** A component reference leads to the schema of that name, and to none if there is no such schema; what
      follows the name makes no difference. */
  lemma ReferenceLeadsToSchema(specs: Specs, name: string, rest: string)
    requires '/' !in name
    ensures var found := specs.schemas.Some? && name in specs.schemas.value;
            var schema := if found then Some(specs.schemas.value[name]) else None;
            GetSchema(specs, SCHEMAS + name) == schema && GetSchema(specs, SCHEMAS + name + "/" + rest) == schema
  {
    SplitSchemas(name);
    SplitSchemas(name + "/" + rest);
    SplitFirst(name, rest);
    assert SCHEMAS + name + "/" + rest == SCHEMAS + (name + "/" + rest);
  }

  lemma SplitSchemas(name: string)
    ensures Split(SCHEMAS + name) == ["#", "components", "schemas"] + Split(name)
  {
    hide Split;
    var schemas, components := "schemas" + "/" + name, "components" + "/" + ("schemas" + "/" + name);
    SplitFirst("#", components);
    SplitFirst("components", schemas);
    SplitFirst("schemas", name);
    SchemasInParts(name);
  }

  lemma SchemasInParts(name: string)
    ensures SCHEMAS + name == "#" + "/" + ("components" + "/" + ("schemas" + "/" + name))
  {
    assert SCHEMAS == "#/components/" + "schemas/" && "#/components/" == "#/" + "components/";
    Associative("#/components/", "schemas/", name);
    Associative("#/", "components/", "schemas/" + name);
    assert "#" + "/" == "#/" && "components" + "/" == "components/" && "schemas" + "/" == "schemas/";
  }

  lemma Associative(a: string, b: string, c: string)
    ensures a + b + c == a + (b + c)
  {
  }

  /** No other reference leads anywhere. */
  lemma OnlyComponentsAreFound(specs: Specs, reference: string)
    requires GetSchema(specs, reference).Some?
    ensures |reference| >= |SCHEMAS| && reference[..|SCHEMAS|] == SCHEMAS
  {
    SplitExact(reference);
    var path := Split(reference);
    hide Split, Path;
    PathFirst(path);
    PathFirst(path[1..]);
    PathFirst(path[2..]);
    assert path[1..][1..] == path[2..] && path[2..][1..] == path[3..];
    assert reference == "#" + "/" + ("components" + "/" + ("schemas" + "/" + Path(path[3..])));
    assert reference == SCHEMAS + Path(path[3..]);
  }

  lemma PathFirst(parts: seq<string>)
    requires |parts| >= 2
    ensures Path(parts) == parts[0] + "/" + Path(parts[1..])
  {
  }
}
