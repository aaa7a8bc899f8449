/** Which schemas have a type behind their name: the name is collected when the schema is named, or it is
    one that needs no collecting. */
module SchemaNames {
  import opened Outcomes
  import opened OpenRpc
  import opened TypeNaming
  import opened TypeWorklist

  /** Rust types that the generated code uses under the names of some literals. */
  const RUST_TYPES: set<string> := {"bool", "Type0", "Type1", "Type2"}

  /** The types that the generated code takes from elsewhere. */
  const GIVEN_TYPES: set<string> := RUST_TYPES + PRIMITIVE_MAPPINGS.Values

  predicate HasName(pascal: Pascal, schema: Schema) {
    InfoOf(pascal, schema).Ok? && InfoOf(pascal, schema).value.Some?
  }

  function TypeName(pascal: Pascal, schema: Schema): string {
    if HasName(pascal, schema) then InfoOf(pascal, schema).value.value.name else ""
  }

  /** The name of the schema's type comes from one type: it is not the joined name of a nested combination
      nor the empty name of a choice without alternatives. */
  predicate Named(pascal: Pascal, schema: Schema)
    decreases schema, 1
  {
    match schema
    case Lit(ArrayOf(Some(items))) => Named(pascal, items)
    case AllOf(parts) => |parts| == 1 && Named(pascal, parts[0])
    case AnyOf(items) => NamedChoice(pascal, items)
    case OneOf(items) => NamedChoice(pascal, items)
    case _ => true
  }

  /** Several alternatives are collected as a type of their own; a single one must have a name itself. */
  predicate NamedChoice(pascal: Pascal, items: seq<Schema>)
    decreases items, 0
  {
    var names := NamesOf(pascal, items);
    names.Ok? ==>
      var kept := NonNull(names.value);
      |kept| > 1
      || (|kept| == 1 && forall i | 0 <= i < |items| :: IsNullName(names.value[i]) || Named(pascal, items[i]))
  }

  /** The patterns of a single digit, and their types. */
  const DIGIT_TYPES: map<string, string> := map["^0x0$" := "Type0", "^0x1$" := "Type1", "^0x2$" := "Type2"]

  predicate IsDigit(text: StringLiteral) {
    && text.minLength.None? && text.maxLength.None? && text.format.None? && text.enumeration.None?
    && text.pattern.Some? && text.pattern.value in DIGIT_TYPES
  }

  lemma DigitIsNamed(text: StringLiteral)
    ensures DigitType(text).Ok? <==> IsDigit(text)
    ensures IsDigit(text) ==> DigitType(text) == Ok(Plain(DIGIT_TYPES[text.pattern.value]))
  {
    if IsDigit(text) {
      assert "^0x0$"[3..4] == "0" && "^0x1$"[3..4] == "1" && "^0x2$"[3..4] == "2";
      assert "Type" + "0" == "Type0" && "Type" + "1" == "Type1" && "Type" + "2" == "Type2";
      assert text.pattern.value in ["^0x0$", "^0x1$", "^0x2$"];
    }
  }

  // ----- lists of names -----

  lemma {:induction false} NonNullOccurs(names: seq<string>, name: string)
    ensures name in NonNull(names) <==> name in names && !IsNullName(name)
  {
    if names == [] {
    } else {
      NonNullOccurs(names[1..], name);
      assert names == [names[0]] + names[1..];
    }
  }

  lemma {:induction false} OnlyOneKept(names: seq<string>, i: nat)
    requires |NonNull(names)| == 1 && i < |names| && !IsNullName(names[i])
    ensures NonNull(names) == [names[i]]
    ensures forall j | 0 <= j < |names| && j != i :: IsNullName(names[j])
  {
    var rest := names[1..];
    if i == 0 {
      assert NonNull(rest) == [];
      forall j | 1 <= j < |names|
        ensures IsNullName(names[j])
      {
        NonNullOccurs(rest, rest[j - 1]);
      }
    } else {
      NonNullOccurs(rest, rest[i - 1]);
      assert IsNullName(names[0]);
      OnlyOneKept(rest, i - 1);
      assert forall j | 1 <= j < |names| :: names[j] == rest[j - 1];
    }
  }

  predicate OccursAt(s: string, word: string, i: nat) {
    i + |word| <= |s| && s[i..i + |word|] == word
  }

  ghost predicate Contains(s: string, word: string) {
    exists i: nat :: OccursAt(s, word, i)
  }

  lemma {:induction false} JoinIsLonger(names: seq<string>, separator: string)
    ensures forall i | 0 <= i < |names| ::
              |names[i]| + (if |names| >= 2 then |separator| else 0) <= |Join(names, separator)|
  {
    if |names| <= 1 {
    } else {
      JoinIsLonger(names[1..], separator);
      forall i | 0 <= i < |names|
        ensures |names[i]| + |separator| <= |Join(names, separator)|
      {
        if i > 0 {
          assert names[i] == names[1..][i - 1];
        }
      }
    }
  }

  lemma JoinContains(names: seq<string>, separator: string)
    requires |names| >= 2
    ensures Contains(Join(names, separator), separator)
  {
    var s, i := Join(names, separator), |names[0]|;
    assert s == names[0] + separator + Join(names[1..], separator);
    assert OccursAt(s, separator, i);
  }

  lemma FirstLetters(s: string, word: string, i: nat)
    requires OccursAt(s, word, i) && |word| >= 2
    ensures i + 1 < |s| && s[i] == word[0] && s[i + 1] == word[1]
  {
    assert s[i..i + |word|][0] == word[0] && s[i..i + |word|][1] == word[1];
  }

  /** No type that is taken from elsewhere, and no null-like name, looks like a joined name or is empty. */
  lemma NoJoinedName(name: string)
    requires name in GIVEN_TYPES || IsNullName(name)
    ensures name != "" && !Contains(name, "And")
    ensures IsNullName(name) ==> !Contains(name, "Or")
  {
    forall i: nat
      ensures !OccursAt(name, "And", i) && (IsNullName(name) ==> !OccursAt(name, "Or", i))
    {
      if OccursAt(name, "And", i) {
        FirstLetters(name, "And", i);
      } else if OccursAt(name, "Or", i) {
        FirstLetters(name, "Or", i);
      }
    }
  }

  // ----- names and collections of a list of schemas -----

  lemma {:induction false} NamesAt(pascal: Pascal, schemas: seq<Schema>, i: nat)
    requires NamesOf(pascal, schemas).Ok? && i < |schemas|
    ensures HasName(pascal, schemas[i]) && NamesOf(pascal, schemas).value[i] == TypeName(pascal, schemas[i])
  {
    if i == 0 {
    } else {
      NamesAt(pascal, schemas[1..], i - 1);
    }
  }

  lemma {:induction false} CollectedByOne(pascal: Pascal, schemas: seq<Schema>, c: Collected) returns (i: nat)
    requires c in CollectsAll(pascal, schemas)
    ensures i < |schemas| && c in Collects(pascal, schemas[i])
  {
    if c in Collects(pascal, schemas[0]) {
      i := 0;
    } else {
      var j := CollectedByOne(pascal, schemas[1..], c);
      i := j + 1;
    }
  }

  lemma {:induction false} CollectedByAll(pascal: Pascal, schemas: seq<Schema>, i: nat, c: Collected)
    requires i < |schemas| && c in Collects(pascal, schemas[i])
    ensures c in CollectsAll(pascal, schemas)
  {
    if i == 0 {
    } else {
      CollectedByAll(pascal, schemas[1..], i - 1, c);
    }
  }

  // ----- a named schema is collected -----

  /** The name of a named schema is a Rust type, or `Null`, or collected when it is named. */
  lemma {:induction false} NamedIsCollected(pascal: Pascal, schema: Schema)
    requires Named(pascal, schema) && HasName(pascal, schema)
    ensures TypeName(pascal, schema) in RUST_TYPES + {"Null"} + NamesIn(Collects(pascal, schema))
    decreases schema, 1
  {
    match schema {
      case Reference(r) =>
        assert Collected(ReferenceToName(pascal, r), ByReference(r)) in Collects(pascal, schema);
      case Lit(ArrayOf(Some(items))) => NamedIsCollected(pascal, items);
      case AllOf(parts) => SinglePart(pascal, parts); NamedIsCollected(pascal, parts[0]);
      case AnyOf(items) => NamedChoiceIsCollected(pascal, schema, items);
      case OneOf(items) => NamedChoiceIsCollected(pascal, schema, items);
      case Lit(Text(text)) => DigitIsNamed(text);
      case _ =>
    }
  }

  /** A combination of one part has the name of the part and collects what the part does. */
  lemma SinglePart(pascal: Pascal, parts: seq<Schema>)
    requires |parts| == 1 && HasName(pascal, AllOf(parts))
    ensures HasName(pascal, parts[0]) && TypeName(pascal, AllOf(parts)) == TypeName(pascal, parts[0])
    ensures Collects(pascal, AllOf(parts)) == Collects(pascal, parts[0])
  {
    CollectsAllOfOne(pascal, parts[0]);
    assert parts == [parts[0]] && parts[1..] == [];
    NamesAt(pascal, parts, 0);
  }

  lemma {:induction false} NamedChoiceIsCollected(pascal: Pascal, schema: Schema, items: seq<Schema>)
    requires NamedChoice(pascal, items) && NamesOf(pascal, items).Ok?
    ensures Join(NonNull(NamesOf(pascal, items).value), "Or")
            in RUST_TYPES + NamesIn(CollectsAll(pascal, items) + CollectsChoice(pascal, schema, items))
    decreases items, 1
  {
    hide Named;
    var names := NamesOf(pascal, items).value;
    var kept := NonNull(names);
    var cs := CollectsAll(pascal, items) + CollectsChoice(pascal, schema, items);
    if |kept| == 1 {
      NonNullOccurs(names, kept[0]);
      var i :| 0 <= i < |names| && names[i] == kept[0];
      NamesAt(pascal, items, i);
      NamedIsCollected(pascal, items[i]);
      if names[i] !in RUST_TYPES {
        var c :| c in Collects(pascal, items[i]) && c.name == names[i];
        CollectedByAll(pascal, items, i, c);
        assert c in cs;
      }
    } else {
      assert CollectsChoice(pascal, schema, items)[0].name == Join(kept, "Or");
    }
  }

  // ----- and no other -----

  /** A schema whose name stands for a missing value collects no other name. */
  lemma {:induction false} NullNamed(pascal: Pascal, schema: Schema, c: Collected)
    requires HasName(pascal, schema) && IsNullName(TypeName(pascal, schema)) && c in Collects(pascal, schema)
    ensures c.name == TypeName(pascal, schema)
  {
    NoJoinedName(TypeName(pascal, schema));
    match schema {
      case Lit(ArrayOf(Some(items))) => NullNamed(pascal, items, c);
      case AllOf(parts) =>
        if |parts| == 1 {
          SinglePart(pascal, parts);
          NullNamed(pascal, parts[0], c);
        } else {
          JoinContains(NamesOf(pascal, parts).value, "And");
        }
      case AnyOf(items) => ChoiceIsNotNull(NamesOf(pascal, items).value);
      case OneOf(items) => ChoiceIsNotNull(NamesOf(pascal, items).value);
      case _ =>
    }
  }

  lemma ChoiceIsNotNull(names: seq<string>)
    ensures !IsNullName(Join(NonNull(names), "Or"))
  {
    var kept := NonNull(names);
    if |kept| == 1 {
      NonNullOccurs(names, kept[0]);
    } else if |kept| > 1 {
      JoinContains(kept, "Or");
      if IsNullName(Join(kept, "Or")) {
        NoJoinedName(Join(kept, "Or"));
      }
    }
  }

  /** What naming a schema collects is null-like or no longer than the name. */
  lemma {:induction false} CollectedIsShorter(pascal: Pascal, schema: Schema, c: Collected)
    requires HasName(pascal, schema) && c in Collects(pascal, schema)
    ensures IsNullName(c.name) || |c.name| <= |TypeName(pascal, schema)|
    decreases schema, 1
  {
    match schema {
      case Lit(ArrayOf(Some(items))) => CollectedIsShorter(pascal, items, c);
      case AllOf(parts) =>
        var i := PartIsShorter(pascal, parts, c);
        JoinIsLonger(NamesOf(pascal, parts).value, "And");
      case AnyOf(items) => ChoiceIsShorter(pascal, schema, items, c);
      case OneOf(items) => ChoiceIsShorter(pascal, schema, items, c);
      case _ =>
    }
  }

  lemma {:induction false} PartIsShorter(pascal: Pascal, parts: seq<Schema>, c: Collected) returns (i: nat)
    requires NamesOf(pascal, parts).Ok? && c in CollectsAll(pascal, parts)
    ensures i < |parts| && c in Collects(pascal, parts[i]) && HasName(pascal, parts[i])
    ensures NamesOf(pascal, parts).value[i] == TypeName(pascal, parts[i])
    ensures IsNullName(c.name) || |c.name| <= |NamesOf(pascal, parts).value[i]|
    decreases parts, 0
  {
    i := CollectedByOne(pascal, parts, c);
    NamesAt(pascal, parts, i);
    CollectedIsShorter(pascal, parts[i], c);
  }

  lemma {:induction false} ChoiceIsShorter(pascal: Pascal, schema: Schema, items: seq<Schema>, c: Collected)
    requires NamesOf(pascal, items).Ok?
    requires c in CollectsAll(pascal, items) + CollectsChoice(pascal, schema, items)
    ensures IsNullName(c.name) || |c.name| <= |Join(NonNull(NamesOf(pascal, items).value), "Or")|
    decreases items, 1
  {
    var names := NamesOf(pascal, items).value;
    var kept := NonNull(names);
    if c in CollectsAll(pascal, items) {
      var i := PartIsShorter(pascal, items, c);
      if IsNullName(names[i]) {
        NullNamed(pascal, items[i], c);
      } else {
        NonNullOccurs(names, names[i]);
        JoinIsLonger(kept, "Or");
      }
    }
  }

  /** The name of an unnamed schema is empty or a joined name. */
  lemma {:induction false} UnnamedIsJoined(pascal: Pascal, schema: Schema)
    requires HasName(pascal, schema) && !Named(pascal, schema)
    ensures TypeName(pascal, schema) == "" || Contains(TypeName(pascal, schema), "And")
    decreases schema, 1
  {
    match schema {
      case Lit(ArrayOf(Some(items))) => UnnamedIsJoined(pascal, items);
      case AllOf(parts) =>
        if |parts| == 1 {
          SinglePart(pascal, parts);
          UnnamedIsJoined(pascal, parts[0]);
        } else if |parts| > 1 {
          JoinContains(NamesOf(pascal, parts).value, "And");
        }
      case AnyOf(items) => UnnamedChoiceIsJoined(pascal, items);
      case OneOf(items) => UnnamedChoiceIsJoined(pascal, items);
    }
  }

  lemma {:induction false} UnnamedChoiceIsJoined(pascal: Pascal, items: seq<Schema>)
    requires NamesOf(pascal, items).Ok? && !NamedChoice(pascal, items)
    ensures var name := Join(NonNull(NamesOf(pascal, items).value), "Or"); name == "" || Contains(name, "And")
    decreases items, 0
  {
    var names := NamesOf(pascal, items).value;
    if |NonNull(names)| == 1 {
      var i :| 0 <= i < |items| && !IsNullName(names[i]) && !Named(pascal, items[i]);
      OnlyOneKept(names, i);
      NamesAt(pascal, items, i);
      UnnamedIsJoined(pascal, items[i]);
    }
  }

  /** An unnamed schema collects many names, but not its own. */
  lemma {:induction false} UnnamedIsNotCollected(pascal: Pascal, schema: Schema, c: Collected)
    requires HasName(pascal, schema) && !Named(pascal, schema) && c in Collects(pascal, schema)
    ensures c.name != TypeName(pascal, schema)
    decreases schema, 1
  {
    match schema {
      case Lit(ArrayOf(Some(items))) => UnnamedIsNotCollected(pascal, items, c);
      case AllOf(parts) =>
        if |parts| == 1 {
          SinglePart(pascal, parts);
          UnnamedIsNotCollected(pascal, parts[0], c);
        } else {
          var names := NamesOf(pascal, parts).value;
          var i := PartIsShorter(pascal, parts, c);
          JoinIsLonger(names, "And");
          JoinContains(names, "And");
          if IsNullName(c.name) {
            NoJoinedName(c.name);
          }
        }
      case AnyOf(items) => UnnamedChoiceIsNotCollected(pascal, schema, items, c);
      case OneOf(items) => UnnamedChoiceIsNotCollected(pascal, schema, items, c);
    }
  }

  lemma {:induction false} UnnamedChoiceIsNotCollected(pascal: Pascal, schema: Schema, items: seq<Schema>, c: Collected)
    requires NamesOf(pascal, items).Ok? && !NamedChoice(pascal, items)
    requires c in CollectsAll(pascal, items) + CollectsChoice(pascal, schema, items)
    ensures c.name != Join(NonNull(NamesOf(pascal, items).value), "Or")
    decreases items, 0
  {
    hide Named;
    var names := NamesOf(pascal, items).value;
    ChoiceIsNotNull(names);
    var j := CollectedByOne(pascal, items, c);
    NamesAt(pascal, items, j);
    if IsNullName(names[j]) {
      NullNamed(pascal, items[j], c);
    } else {
      NonNullOccurs(names, names[j]);
      OnlyOneKept(names, j);
      var i :| 0 <= i < |items| && !IsNullName(names[i]) && !Named(pascal, items[i]);
      UnnamedIsNotCollected(pascal, items[j], c);
    }
  }

  /** A schema is named exactly when its name is a Rust type, or `Null`, or collected when it is named. The
      name of any other is none that is taken from elsewhere either. */
  lemma NameIsCollected(pascal: Pascal, schema: Schema)
    requires HasName(pascal, schema)
    ensures Named(pascal, schema)
       <==> TypeName(pascal, schema) in RUST_TYPES + {"Null"} + NamesIn(Collects(pascal, schema))
    ensures !Named(pascal, schema) ==> TypeName(pascal, schema) !in GIVEN_TYPES
  {
    var name := TypeName(pascal, schema);
    if Named(pascal, schema) {
      NamedIsCollected(pascal, schema);
    } else {
      UnnamedIsJoined(pascal, schema);
      if name in GIVEN_TYPES || IsNullName(name) {
        NoJoinedName(name);
      }
      forall c | c in Collects(pascal, schema)
        ensures c.name != name
      {
        UnnamedIsNotCollected(pascal, schema, c);
      }
    }
  }

  /** A combination of several parts of any form has a joined name; naming it collects what the parts
      collect, and the joined name is none of it. */
  lemma JoinedPartsAreNotCollected(pascal: Pascal, parts: seq<Schema>)
    requires |parts| >= 2 && NamesOf(pascal, parts).Ok?
    ensures HasName(pascal, AllOf(parts)) && !Named(pascal, AllOf(parts))
    ensures TypeName(pascal, AllOf(parts)) == Join(NamesOf(pascal, parts).value, "And")
    ensures Collects(pascal, AllOf(parts)) == CollectsAll(pascal, parts)
    ensures TypeName(pascal, AllOf(parts)) !in GIVEN_TYPES + {"Null"} + NamesIn(CollectsAll(pascal, parts))
  {
    NameIsCollected(pascal, AllOf(parts));
  }
}
