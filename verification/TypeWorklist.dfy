/** The worklist of the generator on values: what collecting does, which types can be reached from the
    first collection, and what holds while the list is worked off. */
module TypeWorklist {
  import opened Outcomes
  import opened OpenRpc
  import opened TypeNaming

  type Collection = map<string, Source>

  /** The names that are never generated: the primitive types under both their names, and `NotFound`. */
  function BuiltIn(pascal: Pascal): set<string> {
    {pascal("notFound")} + (set r | r in PRIMITIVE_MAPPINGS :: ReferenceToName(pascal, r)) + PRIMITIVE_MAPPINGS.Values
  }

  // ----- collecting, on values -----

  /** A name is collected unless it is already collected or generated. */
  function CollectOne(generated: set<string>, collected: Collection, c: Collected): Collection {
    if c.name in generated || c.name in collected then collected else collected[c.name := c.source]
  }

  function CollectEach(generated: set<string>, collected: Collection, cs: seq<Collected>): Collection
    decreases |cs|
  {
    if cs == [] then collected else CollectEach(generated, CollectOne(generated, collected, cs[0]), cs[1..])
  }

  lemma {:induction false} CollectEachConcat(generated: set<string>, collected: Collection, a: seq<Collected>,
                                             b: seq<Collected>)
    ensures CollectEach(generated, collected, a + b)
         == CollectEach(generated, CollectEach(generated, collected, a), b)
    decreases |a|
  {
    if a == [] {
      assert a + b == b;
    } else {
      CollectEachConcat(generated, CollectOne(generated, collected, a[0]), a[1..], b);
      assert (a + b)[1..] == a[1..] + b && (a + b)[0] == a[0];
    }
  }

  function NamesIn(cs: seq<Collected>): set<string> {
    set c | c in cs :: c.name
  }

  lemma NamesInFirst(cs: seq<Collected>)
    requires cs != []
    ensures NamesIn(cs) == {cs[0].name} + NamesIn(cs[1..])
  {
    assert cs == [cs[0]] + cs[1..];
  }

  /** Collecting adds exactly the names that are not generated yet, each under one of its sources. */
  lemma {:induction false} CollectEachKeys(generated: set<string>, collected: Collection, cs: seq<Collected>)
    requires collected.Keys !! generated
    ensures var r := CollectEach(generated, collected, cs);
            && r.Keys == collected.Keys + (NamesIn(cs) - generated)
            && (forall k | k in r :: (k in collected && r[k] == collected[k]) || Collected(k, r[k]) in cs)
    decreases |cs|
  {
    if cs == [] {
    } else {
      NamesInFirst(cs);
      hide NamesIn;
      var next := CollectOne(generated, collected, cs[0]);
      CollectEachKeys(generated, next, cs[1..]);
      var r := CollectEach(generated, collected, cs);
      forall k | k in r
        ensures (k in collected && r[k] == collected[k]) || Collected(k, r[k]) in cs
      {
        if !(k in next && r[k] == next[k]) {
          assert Collected(k, r[k]) in cs[1..];
        }
      }
    }
  }

  /** The source under which a name is collected stays: the one that it was collected with before, or else
      the first. */
  lemma {:induction false} FirstSourceStays(generated: set<string>, collected: Collection, cs: seq<Collected>)
    ensures var r := CollectEach(generated, collected, cs);
            && (forall k | k in collected :: k in r && r[k] == collected[k])
            && (forall i | 0 <= i < |cs| && cs[i].name !in generated && cs[i].name !in collected
                           && (forall j | 0 <= j < i :: cs[j].name != cs[i].name) ::
                  cs[i].name in r && r[cs[i].name] == cs[i].source)
    decreases |cs|
  {
    if cs == [] {
    } else {
      var next := CollectOne(generated, collected, cs[0]);
      FirstSourceStays(generated, next, cs[1..]);
      var r := CollectEach(generated, collected, cs);
      forall i | 0 <= i < |cs| && cs[i].name !in generated && cs[i].name !in collected
                 && (forall j | 0 <= j < i :: cs[j].name != cs[i].name)
        ensures cs[i].name in r && r[cs[i].name] == cs[i].source
      {
        if i > 0 {
          assert cs[i] == cs[1..][i - 1] && cs[i].name !in next;
          assert forall j | 0 <= j < i - 1 :: cs[1..][j] == cs[j + 1];
        }
      }
    }
  }

  function ExtraRoot(): seq<Collected> {
    [Collected("TransactionUnsigned", ByReference("#/components/schemas/" + "TransactionUnsigned"))]
  }

  /** The collection that type generation starts from. */
  function Roots(pascal: Pascal, methods: seq<Method>): Collection {
    CollectEach(BuiltIn(pascal), map[], ExtraRoot() + CollectsAll(pascal, AllMethodSchemas(methods)))
  }

  // ----- reachability in the document -----

  datatype Emission = Emission(name: string, content: Content)

  function SchemaOf(specs: Specs, source: Source): Option<Schema> {
    match source
    case ByReference(r) => GetSchema(specs, r)
    case BySchema(s) => Some(s)
  }

  /** Generating the type at `c` collects `d`. */
  predicate Edge(pascal: Pascal, specs: Specs, c: Collected, d: Collected) {
    var schema := SchemaOf(specs, c.source);
    schema.Some? && d in ContentCollects(pascal, schema.value)
  }

  /** A path through the document that starts at a root and visits no blocked name. */
  ghost predicate IsPath(pascal: Pascal, specs: Specs, roots: Collection, blocked: set<string>, path: seq<Collected>) {
    && path != []
    && path[0].name in roots && roots[path[0].name] == path[0].source
    && (forall i | 0 <= i < |path| :: path[i].name !in blocked)
    && forall i | 0 <= i < |path| - 1 :: Edge(pascal, specs, path[i], path[i + 1])
  }

  ghost predicate Reachable(pascal: Pascal, specs: Specs, roots: Collection, blocked: set<string>, c: Collected) {
    exists path: seq<Collected> :: IsPath(pascal, specs, roots, blocked, path) && path[|path| - 1] == c
  }

  /** A step of a path that was generated from this very source. */
  predicate IsOwn(done: Collection, c: Collected) {
    c.name in done && done[c.name] == c.source
  }

  /** A path of which every step but the last was generated from its own source. */
  ghost predicate IsTrace(pascal: Pascal, specs: Specs, roots: Collection, blocked: set<string>, done: Collection,
                          path: seq<Collected>) {
    && IsPath(pascal, specs, roots, blocked, path)
    && forall i | 0 <= i < |path| - 1 :: IsOwn(done, path[i])
  }

  ghost predicate Traced(pascal: Pascal, specs: Specs, roots: Collection, blocked: set<string>, done: Collection,
                         c: Collected) {
    exists path: seq<Collected> :: IsTrace(pascal, specs, roots, blocked, done, path) && path[|path| - 1] == c
  }

  lemma TracedIsReachable(pascal: Pascal, specs: Specs, roots: Collection, blocked: set<string>, done: Collection,
                          c: Collected)
    requires Traced(pascal, specs, roots, blocked, done, c)
    ensures Reachable(pascal, specs, roots, blocked, c)
  {
  }

  lemma RootIsTraced(pascal: Pascal, specs: Specs, roots: Collection, blocked: set<string>, done: Collection,
                     name: string)
    requires name in roots && name !in blocked
    ensures Traced(pascal, specs, roots, blocked, done, Collected(name, roots[name]))
  {
    assert IsTrace(pascal, specs, roots, blocked, done, [Collected(name, roots[name])]);
  }

  lemma TracedStep(pascal: Pascal, specs: Specs, roots: Collection, blocked: set<string>, done: Collection,
                   c: Collected, d: Collected)
    requires Traced(pascal, specs, roots, blocked, done, c) && IsOwn(done, c)
    requires Edge(pascal, specs, c, d) && d.name !in blocked
    ensures Traced(pascal, specs, roots, blocked, done, d)
  {
    hide Edge, IsOwn;
    var path :| IsTrace(pascal, specs, roots, blocked, done, path) && path[|path| - 1] == c;
    var longer := path + [d];
    forall i | 0 <= i < |longer| - 1
      ensures Edge(pascal, specs, longer[i], longer[i + 1]) && IsOwn(done, longer[i])
    {
      assert longer[i] == path[i];
    }
    assert IsTrace(pascal, specs, roots, blocked, done, longer) && longer[|longer| - 1] == d;
  }

  /** Generating more types leaves the traces as they are. */
  lemma TracedOneMore(pascal: Pascal, specs: Specs, roots: Collection, blocked: set<string>, done: Collection,
                      name: string, source: Source, c: Collected)
    requires Traced(pascal, specs, roots, blocked, done, c) && name !in done
    ensures Traced(pascal, specs, roots, blocked, done[name := source], c)
  {
    hide Edge;
    var path :| IsTrace(pascal, specs, roots, blocked, done, path) && path[|path| - 1] == c;
    assert IsTrace(pascal, specs, roots, blocked, done[name := source], path);
  }

  // ----- the finite universe of names -----

  /** A choice that naming a schema collects brings nothing that was not collected with it. */
  lemma {:induction false} ChoiceIsClosed(pascal: Pascal, schema: Schema, c: Collected, d: Collected)
    requires c in Collects(pascal, schema) && c.source.BySchema? && d in ContentCollects(pascal, c.source.schema)
    ensures d in Collects(pascal, schema)
    decreases schema, 1
  {
    match schema {
      case Lit(ArrayOf(Some(items))) => ChoiceIsClosed(pascal, items, c, d);
      case AllOf(parts) => ChoicesAreClosed(pascal, parts, c, d);
      case AnyOf(items) =>
        if c in CollectsAll(pascal, items) {
          ChoicesAreClosed(pascal, items, c, d);
        }
      case OneOf(items) =>
        if c in CollectsAll(pascal, items) {
          ChoicesAreClosed(pascal, items, c, d);
        }
      case _ =>
    }
  }

  lemma {:induction false} ChoicesAreClosed(pascal: Pascal, schemas: seq<Schema>, c: Collected, d: Collected)
    requires c in CollectsAll(pascal, schemas) && c.source.BySchema? && d in ContentCollects(pascal, c.source.schema)
    ensures d in CollectsAll(pascal, schemas)
    decreases schemas, 0
  {
    if c in Collects(pascal, schemas[0]) {
      ChoiceIsClosed(pascal, schemas[0], c, d);
    } else {
      ChoicesAreClosed(pascal, schemas[1..], c, d);
    }
  }

  /** Everything that generating a schema of the document, or an anonymous root, can collect. */
  ghost function Universe(pascal: Pascal, specs: Specs, roots: Collection): set<Collected> {
    var schemas := if specs.schemas.Some? then specs.schemas.value.Values else {};
    (set k | k in roots :: Collected(k, roots[k]))
    + (set t, c | t in schemas && c in ContentCollects(pascal, t) :: c)
    + (set k, c | k in roots && roots[k].BySchema? && c in ContentCollects(pascal, roots[k].schema) :: c)
  }

  lemma UniverseIsClosed(pascal: Pascal, specs: Specs, roots: Collection, c: Collected, d: Collected)
    requires c in Universe(pascal, specs, roots) && Edge(pascal, specs, c, d)
    ensures d in Universe(pascal, specs, roots)
  {
    if c.source.BySchema? {
      if t :| specs.schemas.Some? && t in specs.schemas.value.Values && c in ContentCollects(pascal, t) {
        ChoicesAreClosed(pascal, Children(t), c, d);
      } else if k :| k in roots && roots[k].BySchema? && c in ContentCollects(pascal, roots[k].schema) {
        ChoicesAreClosed(pascal, Children(roots[k].schema), c, d);
      }
    }
  }

  lemma {:induction false} PathStaysInUniverse(pascal: Pascal, specs: Specs, roots: Collection, blocked: set<string>,
                                               path: seq<Collected>, i: nat)
    requires IsPath(pascal, specs, roots, blocked, path) && i < |path|
    ensures path[i] in Universe(pascal, specs, roots)
  {
    if i == 0 {
    } else {
      PathStaysInUniverse(pascal, specs, roots, blocked, path, i - 1);
      assert Edge(pascal, specs, path[i - 1], path[i]);
      UniverseIsClosed(pascal, specs, roots, path[i - 1], path[i]);
    }
  }

  ghost function UniverseNames(pascal: Pascal, specs: Specs, roots: Collection): set<string> {
    set c | c in Universe(pascal, specs, roots) :: c.name
  }

  lemma ReachableInUniverse(pascal: Pascal, specs: Specs, roots: Collection, blocked: set<string>, c: Collected)
    requires Reachable(pascal, specs, roots, blocked, c)
    ensures c in Universe(pascal, specs, roots)
  {
    var path :| IsPath(pascal, specs, roots, blocked, path) && path[|path| - 1] == c;
    PathStaysInUniverse(pascal, specs, roots, blocked, path, |path| - 1);
  }

  // ----- while the list is worked off -----

  /** The progress of a run: what was emitted, the source each emitted name was generated from, what is
      left of the current round, and what has been collected for the next. */
  datatype Progress = Progress(code: seq<Emission>, done: Collection, pending: Collection, next: Collection) {
    function Names(): set<string> {
      done.Keys + pending.Keys + next.Keys
    }
  }

  /** What is printed for a collected type. The generator aborts when the document has no such schema,
      when the schema is not supported, and when a choice has no variant to print. */
  function Printout(pascal: Pascal, specs: Specs, c: Collected): Supported<Content> {
    match SchemaOf(specs, c.source)
    case None => Panic
    case Some(schema) =>
      var content :- ContentOf(pascal, schema);
      if content == Enum([]) then Panic else Ok(content)
  }

  /** The emission of a name is what is printed for the source that the name was collected with. */
  ghost predicate IsEmission(pascal: Pascal, specs: Specs, done: Collection, e: Emission) {
    e.name in done && Printout(pascal, specs, Collected(e.name, done[e.name])) == Ok(e.content)
  }

  /** Some type that can be reached cannot be printed. */
  ghost predicate Obstructed(pascal: Pascal, specs: Specs, roots: Collection, blocked: set<string>) {
    exists c: Collected :: Reachable(pascal, specs, roots, blocked, c) && !Printout(pascal, specs, c).Ok?
  }

  /** Each name is emitted once, and the emitted names are those that are done. */
  ghost predicate EmittedOnce(code: seq<Emission>, names: set<string>) {
    && (forall i, j | 0 <= i < j < |code| :: code[i].name != code[j].name)
    && (forall k | k in names :: exists i :: 0 <= i < |code| && code[i].name == k)
    && (forall i | 0 <= i < |code| :: code[i].name in names)
  }

  ghost predicate Disjoint(p: Progress, blocked: set<string>) {
    && p.done.Keys !! p.pending.Keys && p.done.Keys !! p.next.Keys && p.pending.Keys !! p.next.Keys
    && blocked !! p.Names()
  }

  /** What a done type refers to is blocked, or done, or still to come. */
  ghost predicate Closed(pascal: Pascal, specs: Specs, p: Progress, blocked: set<string>) {
    forall k, d | k in p.done && Edge(pascal, specs, Collected(k, p.done[k]), d) :: d.name in blocked + p.Names()
  }

  /** Whatever is listed can be traced to the roots, with the source it is listed with. */
  ghost predicate Justified(pascal: Pascal, specs: Specs, roots: Collection, blocked: set<string>, done: Collection,
                            m: Collection) {
    forall k | k in m :: Traced(pascal, specs, roots, blocked, done, Collected(k, m[k]))
  }

  ghost predicate OnTrack(pascal: Pascal, specs: Specs, roots: Collection, blocked: set<string>, p: Progress) {
    && Disjoint(p, blocked)
    && EmittedOnce(p.code, p.done.Keys)
    && (forall i | 0 <= i < |p.code| :: IsEmission(pascal, specs, p.done, p.code[i]))
    && Closed(pascal, specs, p, blocked)
    && roots.Keys <= p.Names()
    && Justified(pascal, specs, roots, blocked, p.done, p.done)
    && Justified(pascal, specs, roots, blocked, p.done, p.pending)
    && Justified(pascal, specs, roots, blocked, p.done, p.next)
  }

  lemma StartIsOnTrack(pascal: Pascal, specs: Specs, roots: Collection, blocked: set<string>)
    requires roots.Keys !! blocked
    ensures OnTrack(pascal, specs, roots, blocked, Progress([], map[], map[], roots))
  {
    hide Edge, Justified, IsEmission;
    RootsAreJustified(pascal, specs, roots, blocked, map[]);
    NothingIsJustified(pascal, specs, roots, blocked, map[]);
  }

  lemma RootsAreJustified(pascal: Pascal, specs: Specs, roots: Collection, blocked: set<string>, done: Collection)
    requires roots.Keys !! blocked
    ensures Justified(pascal, specs, roots, blocked, done, roots)
  {
    hide Traced;
    forall k | k in roots
      ensures Traced(pascal, specs, roots, blocked, done, Collected(k, roots[k]))
    {
      RootIsTraced(pascal, specs, roots, blocked, done, k);
    }
  }

  lemma NextRoundIsOnTrack(pascal: Pascal, specs: Specs, roots: Collection, blocked: set<string>, p: Progress)
    requires OnTrack(pascal, specs, roots, blocked, p) && p.pending == map[]
    ensures OnTrack(pascal, specs, roots, blocked, p.(pending := p.next, next := map[]))
  {
    hide EmittedOnce, IsEmission, Edge, Justified;
    NothingIsJustified(pascal, specs, roots, blocked, p.done);
    assert p.(pending := p.next, next := map[]).Names() == p.Names();
  }

  lemma OnTrackIsDisjoint(pascal: Pascal, specs: Specs, roots: Collection, blocked: set<string>, p: Progress)
    requires OnTrack(pascal, specs, roots, blocked, p)
    ensures Disjoint(p, blocked)
  {
  }

  lemma GeneratedIs(pascal: Pascal, blocked: set<string>, p: Progress, name: string, schema: Schema, content: Content)
    requires name in p.pending
    ensures var q := Generated(pascal, blocked, p, name, schema, content);
            && q.code == p.code + [Emission(name, content)] && q.done == p.done[name := p.pending[name]]
            && q.pending == p.pending - {name}
            && q.next == CollectEach(blocked + p.done.Keys + p.pending.Keys, p.next, ContentCollects(pascal, schema))
  {
  }

  lemma NothingIsJustified(pascal: Pascal, specs: Specs, roots: Collection, blocked: set<string>, done: Collection)
    ensures Justified(pascal, specs, roots, blocked, done, map[])
  {
  }

  /** The names not generated yet shrink with every round that has something to do. */
  lemma RoundShrinksUniverse(pascal: Pascal, specs: Specs, roots: Collection, blocked: set<string>, p: Progress)
    requires OnTrack(pascal, specs, roots, blocked, p) && p.pending == map[] && p.next != map[]
    ensures var names := UniverseNames(pascal, specs, roots);
            names - (blocked + p.done.Keys + p.next.Keys) < names - (blocked + p.done.Keys)
  {
    hide Universe, Reachable, Traced, Closed, EmittedOnce, IsEmission;
    var k :| k in p.next;
    TracedIsReachable(pascal, specs, roots, blocked, p.done, Collected(k, p.next[k]));
    ReachableInUniverse(pascal, specs, roots, blocked, Collected(k, p.next[k]));
  }

  /** One type of the round: it is emitted, and what it refers to is collected. */
  function Generated(pascal: Pascal, blocked: set<string>, p: Progress, name: string, schema: Schema,
                     content: Content): Progress
    requires name in p.pending
  {
    Progress(p.code + [Emission(name, content)], p.done[name := p.pending[name]], p.pending - {name},
             CollectEach(blocked + p.done.Keys + p.pending.Keys, p.next, ContentCollects(pascal, schema)))
  }

  lemma EmittedOnceAppend(code: seq<Emission>, names: set<string>, e: Emission)
    requires EmittedOnce(code, names) && e.name !in names
    ensures EmittedOnce(code + [e], names + {e.name})
  {
    var all := code + [e];
    assert all[|code|] == e;
    forall k | k in names
      ensures exists i :: 0 <= i < |all| && all[i].name == k
    {
      var i :| 0 <= i < |code| && code[i].name == k;
      assert all[i].name == k;
    }
  }

  /** The names that are listed after generating one type: those before, and what it refers to. */
  lemma GeneratedNames(pascal: Pascal, blocked: set<string>, p: Progress, name: string, schema: Schema,
                       content: Content)
    requires name in p.pending && Disjoint(p, blocked)
    ensures var q := Generated(pascal, blocked, p, name, schema, content);
            && Disjoint(q, blocked)
            && q.Names() == p.Names() + (NamesIn(ContentCollects(pascal, schema)) - blocked)
            && q.done.Keys == p.done.Keys + {name}
  {
    hide ContentCollects, CollectEach, NamesIn;
    CollectEachKeys(blocked + p.done.Keys + p.pending.Keys, p.next, ContentCollects(pascal, schema));
  }

  lemma OneMoreIsJustified(pascal: Pascal, specs: Specs, roots: Collection, blocked: set<string>, done: Collection,
                           name: string, source: Source, m: Collection)
    requires Justified(pascal, specs, roots, blocked, done, m) && name !in done
    ensures Justified(pascal, specs, roots, blocked, done[name := source], m)
  {
    hide Traced;
    forall k | k in m
      ensures Traced(pascal, specs, roots, blocked, done[name := source], Collected(k, m[k]))
    {
      TracedOneMore(pascal, specs, roots, blocked, done, name, source, Collected(k, m[k]));
    }
  }

  lemma GeneratedIsJustified(pascal: Pascal, specs: Specs, roots: Collection, blocked: set<string>, p: Progress,
                             name: string, schema: Schema, content: Content)
    requires name in p.pending && Disjoint(p, blocked) && SchemaOf(specs, p.pending[name]) == Some(schema)
    requires Justified(pascal, specs, roots, blocked, p.done, p.pending)
    requires Justified(pascal, specs, roots, blocked, p.done, p.next)
    ensures var q := Generated(pascal, blocked, p, name, schema, content);
            Justified(pascal, specs, roots, blocked, q.done, q.next)
  {
    hide Traced, ContentCollects, CollectEach, NamesIn;
    var c := Collected(name, p.pending[name]);
    var q := Generated(pascal, blocked, p, name, schema, content);
    CollectEachKeys(blocked + p.done.Keys + p.pending.Keys, p.next, ContentCollects(pascal, schema));
    GeneratedNames(pascal, blocked, p, name, schema, content);
    OneMoreIsJustified(pascal, specs, roots, blocked, p.done, name, c.source, p.next);
    TracedOneMore(pascal, specs, roots, blocked, p.done, name, c.source, c);
    forall k | k in q.next
      ensures Traced(pascal, specs, roots, blocked, q.done, Collected(k, q.next[k]))
    {
      if !(k in p.next && q.next[k] == p.next[k]) {
        TracedStep(pascal, specs, roots, blocked, q.done, c, Collected(k, q.next[k]));
      }
    }
  }

  lemma GeneratedIsClosed(pascal: Pascal, specs: Specs, blocked: set<string>, p: Progress,
                          name: string, schema: Schema, content: Content)
    requires name in p.pending && Disjoint(p, blocked) && SchemaOf(specs, p.pending[name]) == Some(schema)
    requires Closed(pascal, specs, p, blocked)
    ensures Closed(pascal, specs, Generated(pascal, blocked, p, name, schema, content), blocked)
  {
    hide ContentCollects, CollectEach;
    GeneratedNames(pascal, blocked, p, name, schema, content);
    var q := Generated(pascal, blocked, p, name, schema, content);
    forall k, d | k in q.done && Edge(pascal, specs, Collected(k, q.done[k]), d)
      ensures d.name in blocked + q.Names()
    {
      if k == name {
        assert d in ContentCollects(pascal, schema);
      }
    }
  }

  lemma GeneratedEmits(pascal: Pascal, specs: Specs, blocked: set<string>, p: Progress,
                       name: string, schema: Schema, content: Content)
    requires name in p.pending && Disjoint(p, blocked) && EmittedOnce(p.code, p.done.Keys)
    requires SchemaOf(specs, p.pending[name]) == Some(schema)
    requires Printout(pascal, specs, Collected(name, p.pending[name])) == Ok(content)
    requires forall i | 0 <= i < |p.code| :: IsEmission(pascal, specs, p.done, p.code[i])
    ensures var q := Generated(pascal, blocked, p, name, schema, content);
            && EmittedOnce(q.code, q.done.Keys)
            && forall i | 0 <= i < |q.code| :: IsEmission(pascal, specs, q.done, q.code[i])
  {
    hide ContentCollects, CollectEach, Printout;
    var q := Generated(pascal, blocked, p, name, schema, content);
    EmittedOnceAppend(p.code, p.done.Keys, Emission(name, content));
    assert q.done.Keys == p.done.Keys + {name};
    forall i | 0 <= i < |q.code|
      ensures IsEmission(pascal, specs, q.done, q.code[i])
    {
      if i < |p.code| {
        assert q.code[i] == p.code[i] && IsEmission(pascal, specs, p.done, p.code[i]);
      }
    }
  }

  lemma GeneratedIsOnTrack(pascal: Pascal, specs: Specs, roots: Collection, blocked: set<string>, p: Progress,
                           name: string, schema: Schema, content: Content)
    requires OnTrack(pascal, specs, roots, blocked, p) && name in p.pending
    requires SchemaOf(specs, p.pending[name]) == Some(schema)
    requires Printout(pascal, specs, Collected(name, p.pending[name])) == Ok(content)
    ensures OnTrack(pascal, specs, roots, blocked, Generated(pascal, blocked, p, name, schema, content))
  {
    GeneratedNames(pascal, blocked, p, name, schema, content);
    GeneratedIsJustified(pascal, specs, roots, blocked, p, name, schema, content);
    GeneratedIsClosed(pascal, specs, blocked, p, name, schema, content);
    GeneratedEmits(pascal, specs, blocked, p, name, schema, content);
    MovedIsJustified(pascal, specs, roots, blocked, p, name, schema, content);
    hide Disjoint, EmittedOnce, IsEmission, Closed, Justified, Generated;
  }

  /** A pending type that cannot be printed shows that the document is not supported. */
  lemma FailureIsObstruction(pascal: Pascal, specs: Specs, roots: Collection, blocked: set<string>, p: Progress,
                             name: string)
    requires OnTrack(pascal, specs, roots, blocked, p) && name in p.pending
    ensures !Printout(pascal, specs, Collected(name, p.pending[name])).Ok? ==> Obstructed(pascal, specs, roots, blocked)
  {
    hide Traced, Reachable, Printout, Closed, EmittedOnce, IsEmission, Disjoint;
    TracedIsReachable(pascal, specs, roots, blocked, p.done, Collected(name, p.pending[name]));
  }

  lemma MovedIsJustified(pascal: Pascal, specs: Specs, roots: Collection, blocked: set<string>, p: Progress,
                         name: string, schema: Schema, content: Content)
    requires name in p.pending && Disjoint(p, blocked)
    requires Justified(pascal, specs, roots, blocked, p.done, p.done)
    requires Justified(pascal, specs, roots, blocked, p.done, p.pending)
    ensures var q := Generated(pascal, blocked, p, name, schema, content);
            && Justified(pascal, specs, roots, blocked, q.done, q.done)
            && Justified(pascal, specs, roots, blocked, q.done, q.pending)
  {
    hide Traced, ContentCollects, CollectEach;
    OneMoreIsJustified(pascal, specs, roots, blocked, p.done, name, p.pending[name], p.done);
    OneMoreIsJustified(pascal, specs, roots, blocked, p.done, name, p.pending[name], p.pending);
  }
}
