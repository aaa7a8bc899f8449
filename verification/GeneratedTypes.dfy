/** What a finished run of the generator has emitted. */
module GeneratedTypes {
  import opened Outcomes
  import opened OpenRpc
  import opened TypeNaming
  import opened TypeWorklist

  /** A finished run: nothing pending, nothing collected. */
  ghost predicate Finished(pascal: Pascal, specs: Specs, roots: Collection, blocked: set<string>,
                           code: seq<Emission>, done: Collection) {
    OnTrack(pascal, specs, roots, blocked, Progress(code, done, map[], map[]))
  }

  function EmittedNames(code: seq<Emission>): set<string> {
    set i | 0 <= i < |code| :: code[i].name
  }

  /** Each name is emitted at most once, and none that was taken care of before: no primitive type, not
      `NotFound`. */
  lemma EmittedAtMostOnce(pascal: Pascal, specs: Specs, roots: Collection, blocked: set<string>,
                          code: seq<Emission>, done: Collection)
    requires Finished(pascal, specs, roots, blocked, code, done)
    ensures |EmittedNames(code)| == |code|
    ensures EmittedNames(code) !! blocked
  {
    hide Justified, Closed, IsEmission;
    assert EmittedNames(code) == done.Keys;
    DistinctNamesCount(code);
  }

  lemma {:induction false} DistinctNamesCount(code: seq<Emission>)
    requires forall i, j | 0 <= i < j < |code| :: code[i].name != code[j].name
    ensures |EmittedNames(code)| == |code|
  {
    if code == [] {
    } else {
      var rest, e := code[..|code| - 1], code[|code| - 1];
      DistinctNamesCount(rest);
      assert EmittedNames(code) == EmittedNames(rest) + {e.name} by {
        assert forall i | 0 <= i < |rest| :: rest[i] == code[i];
      }
      assert e.name !in EmittedNames(rest);
    }
  }

  // ----- exact reachability -----

  /** Types that can be reached under one name refer to the same names, so that it does not matter which
      of them is generated. */
  ghost predicate NamesDetermineReferences(pascal: Pascal, specs: Specs, roots: Collection, blocked: set<string>) {
    forall c, d | Reachable(pascal, specs, roots, blocked, c) && Reachable(pascal, specs, roots, blocked, d)
                  && c.name == d.name && SchemaOf(specs, d.source).Some? ::
      RefersToSameNames(pascal, specs, c, d)
  }

  ghost predicate RefersToSameNames(pascal: Pascal, specs: Specs, c: Collected, d: Collected) {
    forall e | Edge(pascal, specs, c, e) :: exists f: Collected :: f.name == e.name && Edge(pascal, specs, d, f)
  }

  /** Injective naming, a test on the document and the roots alone: what they can collect under one name
      that is not blocked is one schema. */
  ghost predicate NamingIsInjective(pascal: Pascal, specs: Specs, roots: Collection, blocked: set<string>) {
    forall c, d | c in Universe(pascal, specs, roots) && d in Universe(pascal, specs, roots)
                  && c.name == d.name && c.name !in blocked ::
      SchemaOf(specs, c.source) == SchemaOf(specs, d.source)
  }

  /** With injective naming, types that can be reached under one name are one schema. */
  lemma SameSchema(pascal: Pascal, specs: Specs, roots: Collection, blocked: set<string>, c: Collected, d: Collected)
    requires NamingIsInjective(pascal, specs, roots, blocked) && c.name == d.name
    requires Reachable(pascal, specs, roots, blocked, c) && Reachable(pascal, specs, roots, blocked, d)
    ensures SchemaOf(specs, c.source) == SchemaOf(specs, d.source)
  {
    hide Universe;
    ReachableInUniverse(pascal, specs, roots, blocked, c);
    ReachableInUniverse(pascal, specs, roots, blocked, d);
  }

  lemma InjectiveNamingSuffices(pascal: Pascal, specs: Specs, roots: Collection, blocked: set<string>)
    requires NamingIsInjective(pascal, specs, roots, blocked)
    ensures NamesDetermineReferences(pascal, specs, roots, blocked)
  {
    hide Universe, Reachable, ContentCollects, NamingIsInjective;
    forall c, d | Reachable(pascal, specs, roots, blocked, c) && Reachable(pascal, specs, roots, blocked, d)
                  && c.name == d.name && SchemaOf(specs, d.source).Some?
      ensures RefersToSameNames(pascal, specs, c, d)
    {
      SameSchema(pascal, specs, roots, blocked, c, d);
      assert forall e | Edge(pascal, specs, c, e) :: Edge(pascal, specs, d, e);
    }
  }

  /** Nothing is emitted that cannot be reached, with the very source that it was generated from, and
      what is emitted is what is printed for that source. */
  lemma EmittedIsReachable(pascal: Pascal, specs: Specs, roots: Collection, blocked: set<string>,
                           code: seq<Emission>, done: Collection, i: nat)
    requires Finished(pascal, specs, roots, blocked, code, done) && i < |code|
    ensures var c := Collected(code[i].name, if code[i].name in done then done[code[i].name] else ByReference(""));
            && IsOwn(done, c)
            && Traced(pascal, specs, roots, blocked, done, c) && Reachable(pascal, specs, roots, blocked, c)
            && Printout(pascal, specs, c) == Ok(code[i].content)
  {
    hide Traced, Reachable, Closed, Disjoint, Printout;
    assert IsEmission(pascal, specs, done, code[i]);
    TracedIsReachable(pascal, specs, roots, blocked, done, Collected(code[i].name, done[code[i].name]));
  }

  /** Exact reachability, whatever the names: a name is emitted exactly when a path leads to it of which
      every step before was generated from its own source. */
  lemma EmittedIffTraced(pascal: Pascal, specs: Specs, roots: Collection, blocked: set<string>,
                         code: seq<Emission>, done: Collection, name: string)
    requires Finished(pascal, specs, roots, blocked, code, done)
    ensures name in EmittedNames(code)
       <==> exists c: Collected :: c.name == name && Traced(pascal, specs, roots, blocked, done, c)
  {
    hide Finished, Traced, Reachable, Printout;
    if name in EmittedNames(code) {
      var i :| 0 <= i < |code| && code[i].name == name;
      EmittedIsReachable(pascal, specs, roots, blocked, code, done, i);
    }
    if c: Collected :| c.name == name && Traced(pascal, specs, roots, blocked, done, c) {
      TracedIsEmitted(pascal, specs, roots, blocked, code, done, c);
    }
  }

  lemma TracedIsEmitted(pascal: Pascal, specs: Specs, roots: Collection, blocked: set<string>,
                        code: seq<Emission>, done: Collection, c: Collected)
    requires Finished(pascal, specs, roots, blocked, code, done)
    requires Traced(pascal, specs, roots, blocked, done, c)
    ensures c.name in EmittedNames(code)
  {
    DoneIsEmitted(pascal, specs, roots, blocked, code, done);
    TraceEnds(pascal, specs, roots, blocked, done, c);
    hide Justified, Traced, EmittedOnce, IsEmission, Edge;
    if b :| IsOwn(done, b) && Edge(pascal, specs, b, c) {
      assert b == Collected(b.name, done[b.name]);
    }
  }

  /** A traced type is a root, or generating some type collects it. */
  lemma TraceEnds(pascal: Pascal, specs: Specs, roots: Collection, blocked: set<string>, done: Collection, c: Collected)
    requires Traced(pascal, specs, roots, blocked, done, c)
    ensures c.name !in blocked
    ensures c.name in roots || exists b :: IsOwn(done, b) && Edge(pascal, specs, b, c)
  {
    hide Edge, IsOwn;
    var path :| IsTrace(pascal, specs, roots, blocked, done, path) && path[|path| - 1] == c;
    if |path| > 1 {
      var i := |path| - 2;
      assert IsOwn(done, path[i]) && Edge(pascal, specs, path[i], path[i + 1]);
    }
  }

  lemma {:induction false} PathIsEmitted(pascal: Pascal, specs: Specs, roots: Collection, blocked: set<string>,
                                         code: seq<Emission>, done: Collection, path: seq<Collected>, i: nat)
    requires Finished(pascal, specs, roots, blocked, code, done)
    requires NamesDetermineReferences(pascal, specs, roots, blocked)
    requires IsPath(pascal, specs, roots, blocked, path) && i < |path|
    ensures path[i].name in EmittedNames(code)
  {
    hide NamesDetermineReferences, Edge, IsEmission, Justified, Printout, Traced, Reachable;
    DoneIsEmitted(pascal, specs, roots, blocked, code, done);
    if i == 0 {
    } else {
      PathIsEmitted(pascal, specs, roots, blocked, code, done, path, i - 1);
      var c := path[i - 1];
      var j :| 0 <= j < |code| && code[j].name == c.name;
      EmittedIsReachable(pascal, specs, roots, blocked, code, done, j);
      PrintedHasSchema(pascal, specs, Collected(c.name, done[c.name]));
      var d := Collected(c.name, done[c.name]);
      PrefixIsPath(pascal, specs, roots, blocked, path, i);
      var f := SameReference(pascal, specs, roots, blocked, c, d, path[i]);
      assert f.name in blocked + done.Keys;
    }
  }

  lemma PrintedHasSchema(pascal: Pascal, specs: Specs, c: Collected)
    ensures Printout(pascal, specs, c).Ok? ==>
              && SchemaOf(specs, c.source).Some?
              && ContentOf(pascal, SchemaOf(specs, c.source).value) == Printout(pascal, specs, c)
  {
  }

  lemma SameReference(pascal: Pascal, specs: Specs, roots: Collection, blocked: set<string>,
                      c: Collected, d: Collected, e: Collected) returns (f: Collected)
    requires NamesDetermineReferences(pascal, specs, roots, blocked)
    requires Reachable(pascal, specs, roots, blocked, c) && Reachable(pascal, specs, roots, blocked, d)
    requires c.name == d.name && SchemaOf(specs, d.source).Some? && Edge(pascal, specs, c, e)
    ensures f.name == e.name && Edge(pascal, specs, d, f)
  {
    hide Reachable, Edge;
    assert RefersToSameNames(pascal, specs, c, d);
    f :| f.name == e.name && Edge(pascal, specs, d, f);
  }

  lemma PrefixIsPath(pascal: Pascal, specs: Specs, roots: Collection, blocked: set<string>, path: seq<Collected>,
                     i: nat)
    requires IsPath(pascal, specs, roots, blocked, path) && 0 < i < |path|
    ensures Reachable(pascal, specs, roots, blocked, path[i - 1]) && Edge(pascal, specs, path[i - 1], path[i])
  {
    hide Edge;
    var prefix := path[..i];
    assert IsPath(pascal, specs, roots, blocked, prefix) && prefix[|prefix| - 1] == path[i - 1];
  }

  lemma DoneIsEmitted(pascal: Pascal, specs: Specs, roots: Collection, blocked: set<string>,
                      code: seq<Emission>, done: Collection)
    requires Finished(pascal, specs, roots, blocked, code, done)
    ensures EmittedNames(code) == done.Keys
  {
    hide Justified, Closed, IsEmission, Disjoint;
  }

  /** Exact reachability: when names determine references, the emitted names are exactly those of the
      types that can be reached from the roots without passing through a blocked name. */
  lemma EmittedIffReachable(pascal: Pascal, specs: Specs, roots: Collection, blocked: set<string>,
                            code: seq<Emission>, done: Collection, name: string)
    requires Finished(pascal, specs, roots, blocked, code, done)
    requires NamesDetermineReferences(pascal, specs, roots, blocked)
    ensures name in EmittedNames(code)
            <==> exists c: Collected :: c.name == name && Reachable(pascal, specs, roots, blocked, c)
  {
    hide Finished, NamesDetermineReferences;
    if name in EmittedNames(code) {
      var i :| 0 <= i < |code| && code[i].name == name;
      EmittedIsReachable(pascal, specs, roots, blocked, code, done, i);
      assert Collected(name, done[name]).name == name;
    }
    if c: Collected :| c.name == name && Reachable(pascal, specs, roots, blocked, c) {
      var path :| IsPath(pascal, specs, roots, blocked, path) && path[|path| - 1] == c;
      PathIsEmitted(pascal, specs, roots, blocked, code, done, path, |path| - 1);
    }
  }

  /** The names of the types that can be reached, a finite set. */
  ghost function ReachableNames(pascal: Pascal, specs: Specs, roots: Collection, blocked: set<string>): set<string> {
    set name | name in UniverseNames(pascal, specs, roots)
               && exists c: Collected :: c.name == name && Reachable(pascal, specs, roots, blocked, c)
  }

  lemma EmittedAreReachableNames(pascal: Pascal, specs: Specs, roots: Collection, blocked: set<string>,
                                 code: seq<Emission>, done: Collection)
    requires Finished(pascal, specs, roots, blocked, code, done)
    requires NamesDetermineReferences(pascal, specs, roots, blocked)
    ensures EmittedNames(code) == ReachableNames(pascal, specs, roots, blocked)
  {
    hide Finished, NamesDetermineReferences, Universe, Reachable;
    forall name
      ensures name in EmittedNames(code) <==> name in ReachableNames(pascal, specs, roots, blocked)
    {
      EmittedIffReachable(pascal, specs, roots, blocked, code, done, name);
      if c: Collected :| c.name == name && Reachable(pascal, specs, roots, blocked, c) {
        ReachableInUniverse(pascal, specs, roots, blocked, c);
      }
    }
  }
}
