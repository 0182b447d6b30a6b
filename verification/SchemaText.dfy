/** `_render_schema` of scripts/generate_frontend_contracts.py: from OpenAPI schemas to type text. */
module SchemaText {
  import opened Results
  import opened TypeText

  /** An OpenAPI 3.1 schema. Absent keywords are `None`; the members of `properties` are listed in
      name order, the order in which the generator walks them. */
  datatype Schema =
    | Always(allows: bool)
    | Keywords(
        reference: Option<Target>,
        constant: Option<Json>,
        enumeration: Option<seq<Json>>,
        oneOf: Variants,
        anyOf: Variants,
        allOf: Variants,
        kind: Kind,
        items: Option<Schema>,
        properties: Members,
        additional: Additional,
        required: seq<string>)

  datatype Variants = NoVariants | Variants(list: seq<Schema>)
  datatype Members = NoMembers | Members(list: seq<Member>)
  datatype Target = Local(name: string) | Foreign(uri: string)
  datatype Member = Member(name: string, schema: Schema)
  datatype Additional = Unstated | Flag(allowed: bool) | Constrained(schema: Schema)
  type KindNames = names: seq<string> | names != [] witness [""]
  datatype Kind = AnyKind | OneKind(name: string) | ManyKinds(names: KindNames)

  datatype RenderError = NonLocalReference(uri: string) | UnsupportedLiteral(value: Json)

  type Rendered = Result<seq<Token>, RenderError>

  // ----- joining texts

  /** `_deduplicate`: the first occurrence of every part, in order. */
  function Deduplicated<T(==)>(parts: seq<T>): seq<T> {
    if parts == [] then []
    else
      var before, last := Deduplicated(parts[..|parts| - 1]), parts[|parts| - 1];
      if last in before then before else before + [last]
  }

  method Deduplicate<T(==)>(parts: seq<T>) returns (result: seq<T>)
    ensures result == Deduplicated(parts)
  {
    result := [];
    for i := 0 to |parts|
      invariant result == Deduplicated(parts[..i])
    {
      assert parts[..i + 1][..i] == parts[..i];
      if parts[i] !in result {
        result := result + [parts[i]];
      }
    }
    assert parts[..|parts|] == parts;
  }

  function Join(parts: seq<seq<Token>>, operator: Token): seq<Token> {
    if parts == [] then []
    else if |parts| == 1 then parts[0]
    else parts[0] + [operator] + Join(parts[1..], operator)
  }

  // ----- the generator

  function LiteralName(value: Json): Name {
    if value.JNull? then NullType else Literal(value)
  }

  function LiteralText(value: Json): Rendered {
    if value.JArr? || value.JObj? then Err(UnsupportedLiteral(value)) else Ok([Word(LiteralName(value))])
  }

  function LiteralTexts(values: seq<Json>): Result<seq<seq<Token>>, RenderError> {
    if values == [] then Ok([])
    else
      var first :- LiteralText(values[0]);
      var rest :- LiteralTexts(values[1..]);
      Ok([first] + rest)
  }

  function ReferenceName(name: string): string {
    if name == "WorkspaceTransport" then "Workspace" else name
  }

  function ScalarName(kind: string): Option<Name> {
    if kind == "null" then Some(NullType)
    else if kind == "string" then Some(StringType)
    else if kind == "integer" || kind == "number" then Some(NumberType)
    else if kind == "boolean" then Some(BooleanType)
    else None
  }

  predicate NonEmpty<T>(variants: Option<seq<T>>) {
    variants.Some? && variants.value != []
  }

  predicate Given(variants: Variants) {
    variants.Variants? && variants.list != []
  }

  predicate GivenMembers(members: Members) {
    members.Members? && members.list != []
  }

  function Render(s: Schema): Rendered
    decreases s, 2
  {
    match s
    case Always(_) => Ok([Word(JsonValueType)])
    case Keywords(reference, constant, enumeration, oneOf, anyOf, allOf, kind, _, _, _, _) =>
      if reference.Some? then
        match reference.value
        case Local(name) => Ok([Word(Reference(ReferenceName(name)))])
        case Foreign(uri) => Err(NonLocalReference(uri))
      else if constant.Some? then LiteralText(constant.value)
      else if NonEmpty(enumeration) then
        var texts :- LiteralTexts(enumeration.value);
        Ok(Join(Deduplicated(texts), Bar))
      else if Given(oneOf) then
        var texts :- RenderAll(oneOf.list);
        Ok(Join(Deduplicated(texts), Bar))
      else if Given(anyOf) then
        var texts :- RenderAll(anyOf.list);
        Ok(Join(Deduplicated(texts), Bar))
      else if Given(allOf) then
        var texts :- RenderAll(allOf.list);
        Ok(Join(Deduplicated(texts), Amp))
      else match kind
        case AnyKind => RenderKind(s, None)
        case OneKind(name) => RenderKind(s, Some(name))
        case ManyKinds(names) =>
          var texts :- RenderKinds(s, names);
          Ok(Join(Deduplicated(texts), Bar))
  }

  function RenderAll(variants: seq<Schema>): Result<seq<seq<Token>>, RenderError>
    decreases variants, 0
  {
    if variants == [] then Ok([])
    else
      var first :- Render(variants[0]);
      var rest :- RenderAll(variants[1..]);
      Ok([first] + rest)
  }

  /** The branches of a list-valued `type`. */
  function RenderKinds(s: Schema, names: seq<string>): Result<seq<seq<Token>>, RenderError>
    requires s.Keywords?
    decreases s, 1, |names|
  {
    if names == [] then Ok([])
    else
      var first :- RenderKind(s, Some(names[0]));
      var rest :- RenderKinds(s, names[1..]);
      Ok([first] + rest)
  }

  predicate ObjectKind(s: Schema, kind: Option<string>)
    requires s.Keywords?
  {
    kind == Some("object") || s.properties.Members?
  }

  /** The part of the generator after all combinators, for one value of `type`. */
  function RenderKind(s: Schema, kind: Option<string>): Rendered
    requires s.Keywords?
    decreases s, 0
  {
    if kind.Some? && ScalarName(kind.value).Some? then Ok([Word(ScalarName(kind.value).value)])
    else if kind == Some("array") then
      var element :- (if s.items.Some? then Render(s.items.value) else Ok([Word(JsonValueType)]));
      Ok(ArrayText(element))
    else if ObjectKind(s, kind) then
      if GivenMembers(s.properties) then
        var fields :- RenderMembers(s.properties.list, s.required);
        Ok([LBrace] + fields + [RBrace])
      else match s.additional
        case Flag(true) => Ok([RecordOpen, Word(JsonValueType), RecordClose])
        case Constrained(values) =>
          var element :- Render(values);
          Ok([RecordOpen] + element + [RecordClose])
        case _ => Ok([RecordOpen, Word(NeverType), RecordClose])
    else Ok([Word(JsonValueType)])
  }

  function RenderMembers(members: seq<Member>, required: seq<string>): Rendered
    decreases members, 0
  {
    if members == [] then Ok([])
    else
      var m := members[0];
      var content :- Render(m.schema);
      var rest :- RenderMembers(members[1..], required);
      Ok([Property(m.name, m.name !in required)] + content + [Semicolon] + rest)
  }

  // ----- the type the text denotes

  function Single(p: Primary): Type { Type([Conjunction([p])]) }

  /** `A | B`: the alternatives of both. */
  function OrJoin(types: seq<Type>): Type {
    if types == [] then Type([])
    else Type(types[0].alternatives + OrJoin(types[1..]).alternatives)
  }

  /** Text joined by ` & `: the operator binds the last alternative of the left to the first of the right. */
  function AndJoin(types: seq<Type>): Type {
    if types == [] then Type([])
    else if |types| == 1 then types[0]
    else Bind(types[0], AndJoin(types[1..]))
  }

  function Bind(t: Type, u: Type): Type {
    if t.alternatives == [] || u.alternatives == [] then Type(t.alternatives + u.alternatives)
    else
      var n := |t.alternatives| - 1;
      Type(t.alternatives[..n]
           + [Conjunction(t.alternatives[n].parts + u.alternatives[0].parts)]
           + u.alternatives[1..])
  }

  function LiteralType(value: Json): Type { Single(Named(LiteralName(value))) }

  function LiteralTypes(values: seq<Json>): seq<Type> {
    if values == [] then [] else [LiteralType(values[0])] + LiteralTypes(values[1..])
  }

  /** What the rendered text means, read off the schema. */
  function Denoted(s: Schema): Type
    decreases s, 2
  {
    match s
    case Always(_) => Single(Named(JsonValueType))
    case Keywords(reference, constant, enumeration, oneOf, anyOf, allOf, kind, _, _, _, _) =>
      if reference.Some? then
        match reference.value
        case Local(name) => Single(Named(Reference(ReferenceName(name))))
        case Foreign(uri) => Single(Named(Reference(uri)))
      else if constant.Some? then LiteralType(constant.value)
      else if NonEmpty(enumeration) then OrJoin(Deduplicated(LiteralTypes(enumeration.value)))
      else if Given(oneOf) then OrJoin(Deduplicated(DenotedAll(oneOf.list)))
      else if Given(anyOf) then OrJoin(Deduplicated(DenotedAll(anyOf.list)))
      else if Given(allOf) then AndJoin(Deduplicated(DenotedAll(allOf.list)))
      else match kind
        case AnyKind => DenotedKind(s, None)
        case OneKind(name) => DenotedKind(s, Some(name))
        case ManyKinds(names) => OrJoin(Deduplicated(DenotedKinds(s, names)))
  }

  function DenotedAll(variants: seq<Schema>): seq<Type>
    decreases variants, 0
  {
    if variants == [] then [] else [Denoted(variants[0])] + DenotedAll(variants[1..])
  }

  function DenotedKinds(s: Schema, names: seq<string>): seq<Type>
    requires s.Keywords?
    decreases s, 1, |names|
  {
    if names == [] then [] else [DenotedKind(s, Some(names[0]))] + DenotedKinds(s, names[1..])
  }

  function DenotedKind(s: Schema, kind: Option<string>): Type
    requires s.Keywords?
    decreases s, 0
  {
    if kind.Some? && ScalarName(kind.value).Some? then Single(Named(ScalarName(kind.value).value))
    else if kind == Some("array") then
      Single(ArrayOf(if s.items.Some? then Denoted(s.items.value) else Single(Named(JsonValueType))))
    else if ObjectKind(s, kind) then
      if GivenMembers(s.properties) then Single(ObjectOf(DenotedMembers(s.properties.list, s.required)))
      else match s.additional
        case Flag(true) => Single(RecordOf(Single(Named(JsonValueType))))
        case Constrained(values) => Single(RecordOf(Denoted(values)))
        case _ => Single(RecordOf(Single(Named(NeverType))))
    else Single(Named(JsonValueType))
  }

  function DenotedMembers(members: seq<Member>, required: seq<string>): seq<Field>
    decreases members, 0
  {
    if members == [] then []
    else [Field(members[0].name, members[0].name !in required, Denoted(members[0].schema))]
         + DenotedMembers(members[1..], required)
  }

  // ----- denoted types are well shaped

  ghost predicate AllShaped(types: seq<Type>) {
    forall t :: t in types ==> Shaped(t)
  }

  lemma {:induction false} DeduplicatedMembers<T>(parts: seq<T>)
    ensures forall x :: x in Deduplicated(parts) <==> x in parts
  {
    if parts != [] {
      var front := parts[..|parts| - 1];
      DeduplicatedMembers(front);
      assert parts == front + [parts[|parts| - 1]];
    }
  }

  lemma {:induction false} OrJoinShaped(types: seq<Type>)
    requires AllShaped(types) && types != []
    ensures Shaped(OrJoin(types))
  {
    assert Shaped(types[0]);
    if |types| == 1 {
      assert OrJoin(types).alternatives == types[0].alternatives;
    } else {
      assert AllShaped(types[1..]);
      OrJoinShaped(types[1..]);
    }
  }

  lemma BindShaped(t: Type, u: Type)
    requires Shaped(t) && Shaped(u)
    ensures Shaped(Bind(t, u))
  {
    var r := Bind(t, u).alternatives;
    var n := |t.alternatives| - 1;
    forall i | 0 <= i < |r| ensures ShapedConjunction(r[i]) {
      assert ShapedConjunction(t.alternatives[n]) && ShapedConjunction(u.alternatives[0]);
      if i < n {
        assert r[i] == t.alternatives[i];
      } else if i > n {
        assert r[i] == u.alternatives[i - n];
      }
    }
  }

  lemma {:induction false} AndJoinShaped(types: seq<Type>)
    requires AllShaped(types) && types != []
    ensures Shaped(AndJoin(types))
  {
    assert Shaped(types[0]);
    if |types| > 1 {
      assert AllShaped(types[1..]);
      AndJoinShaped(types[1..]);
      BindShaped(types[0], AndJoin(types[1..]));
    }
  }

  lemma SingleShaped(p: Primary)
    requires ShapedPrimary(p)
    ensures Shaped(Single(p)) && Print(Single(p)) == PrintPrimary(p)
  {
    assert ShapedConjunction(Conjunction([p]));
    assert Print(Single(p)) == PrintAlternatives([Conjunction([p])]) == PrintParts([p]);
  }

  lemma {:induction false} LiteralTypesShaped(values: seq<Json>)
    ensures AllShaped(LiteralTypes(values)) && |LiteralTypes(values)| == |values|
  {
    if values != [] {
      LiteralTypesShaped(values[1..]);
      SingleShaped(Named(LiteralName(values[0])));
    }
  }

  lemma DeduplicatedShaped(types: seq<Type>)
    requires AllShaped(types) && types != []
    ensures AllShaped(Deduplicated(types)) && Deduplicated(types) != []
    ensures Shaped(OrJoin(Deduplicated(types))) && Shaped(AndJoin(Deduplicated(types)))
  {
    DeduplicatedMembers(types);
    assert types[0] in Deduplicated(types);
    OrJoinShaped(Deduplicated(types));
    AndJoinShaped(Deduplicated(types));
  }

  lemma {:induction false} DenotedShaped(s: Schema)
    ensures Shaped(Denoted(s))
    decreases s, 2
  {
    hide Shaped, AllShaped, OrJoin, AndJoin, Single, DenotedAll, DenotedKind, DenotedKinds;
    match s
    case Always(_) => SingleShaped(Named(JsonValueType));
    case Keywords(reference, constant, enumeration, oneOf, anyOf, allOf, kind, _, _, _, _) =>
      if reference.Some? {
        match reference.value
        case Local(name) => SingleShaped(Named(Reference(ReferenceName(name))));
        case Foreign(uri) => SingleShaped(Named(Reference(uri)));
      } else if constant.Some? {
        SingleShaped(Named(LiteralName(constant.value)));
      } else if NonEmpty(enumeration) {
        LiteralTypesShaped(enumeration.value);
        DeduplicatedShaped(LiteralTypes(enumeration.value));
      } else if Given(oneOf) {
        DenotedAllShaped(oneOf.list);
        DeduplicatedShaped(DenotedAll(oneOf.list));
      } else if Given(anyOf) {
        DenotedAllShaped(anyOf.list);
        DeduplicatedShaped(DenotedAll(anyOf.list));
      } else if Given(allOf) {
        DenotedAllShaped(allOf.list);
        DeduplicatedShaped(DenotedAll(allOf.list));
      } else {
        match kind
        case AnyKind => DenotedKindShaped(s, None);
        case OneKind(name) => DenotedKindShaped(s, Some(name));
        case ManyKinds(names) =>
          DenotedKindsShaped(s, names);
          DeduplicatedShaped(DenotedKinds(s, names));
      }
  }

  lemma {:induction false} DenotedAllShaped(variants: seq<Schema>)
    ensures AllShaped(DenotedAll(variants)) && |DenotedAll(variants)| == |variants|
    decreases variants, 0
  {
    hide Shaped, Denoted;
    if variants != [] {
      DenotedShaped(variants[0]);
      DenotedAllShaped(variants[1..]);
    }
  }

  lemma {:induction false} DenotedKindsShaped(s: Schema, names: seq<string>)
    requires s.Keywords?
    ensures AllShaped(DenotedKinds(s, names)) && |DenotedKinds(s, names)| == |names|
    decreases s, 1, |names|
  {
    hide Shaped, DenotedKind;
    if names != [] {
      DenotedKindShaped(s, Some(names[0]));
      DenotedKindsShaped(s, names[1..]);
    }
  }

  lemma {:induction false} DenotedKindShaped(s: Schema, kind: Option<string>)
    requires s.Keywords?
    ensures Shaped(DenotedKind(s, kind))
    decreases s, 0
  {
    SingleShaped(Named(JsonValueType));
    SingleShaped(Named(NeverType));
    hide Shaped, Single, Denoted;
    if kind.Some? && ScalarName(kind.value).Some? {
      SingleShaped(Named(ScalarName(kind.value).value));
    } else if kind == Some("array") {
      if s.items.Some? { DenotedShaped(s.items.value); }
      SingleShaped(ArrayOf(if s.items.Some? then Denoted(s.items.value) else Single(Named(JsonValueType))));
    } else if ObjectKind(s, kind) {
      if GivenMembers(s.properties) {
        DenotedMembersShaped(s.properties.list, s.required);
        SingleShaped(ObjectOf(DenotedMembers(s.properties.list, s.required)));
      } else {
        match s.additional
        case Constrained(values) =>
          DenotedShaped(values);
          SingleShaped(RecordOf(Denoted(values)));
        case _ =>
          SingleShaped(RecordOf(Single(Named(JsonValueType))));
          SingleShaped(RecordOf(Single(Named(NeverType))));
      }
    }
  }

  lemma {:induction false} DenotedMembersShaped(members: seq<Member>, required: seq<string>)
    ensures forall i :: 0 <= i < |DenotedMembers(members, required)| ==> Shaped(DenotedMembers(members, required)[i].content)
    ensures |DenotedMembers(members, required)| == |members|
    decreases members, 0
  {
    hide Shaped, Denoted;
    if members != [] {
      DenotedShaped(members[0].schema);
      DenotedMembersShaped(members[1..], required);
    }
  }

  // ----- joining types prints as joining texts

  lemma {:induction false} PrintConcatenated(a: seq<Conjunction>, b: seq<Conjunction>)
    requires a != [] && b != []
    ensures PrintAlternatives(a + b) == PrintAlternatives(a) + [Bar] + PrintAlternatives(b)
  {
    if |a| == 1 {
      assert (a + b)[1..] == b;
    } else {
      PrintConcatenated(a[1..], b);
      assert (a + b)[1..] == a[1..] + b;
    }
  }

  lemma {:induction false} PrintPartsConcatenated(a: seq<Primary>, b: seq<Primary>)
    requires a != [] && b != []
    ensures PrintParts(a + b) == PrintParts(a) + [Amp] + PrintParts(b)
  {
    if |a| == 1 {
      assert (a + b)[1..] == b;
    } else {
      PrintPartsConcatenated(a[1..], b);
      assert (a + b)[1..] == a[1..] + b;
    }
  }

  function Mapped<T, U>(s: seq<T>, f: T -> U): (r: seq<U>)
    ensures |r| == |s| && forall i :: 0 <= i < |s| ==> r[i] == f(s[i])
  {
    if s == [] then [] else [f(s[0])] + Mapped(s[1..], f)
  }

  function Prints(types: seq<Type>): seq<seq<Token>> { Mapped(types, Print) }

  lemma {:induction false} OrJoinPrints(types: seq<Type>)
    requires AllShaped(types) && types != []
    ensures Print(OrJoin(types)) == Join(Prints(types), Bar)
  {
    if |types| == 1 {
      assert OrJoin(types).alternatives == types[0].alternatives;
    } else {
      assert Shaped(types[0]) && AllShaped(types[1..]);
      OrJoinShaped(types[1..]);
      OrJoinPrints(types[1..]);
      PrintConcatenated(types[0].alternatives, OrJoin(types[1..]).alternatives);
      assert Prints(types)[1..] == Prints(types[1..]);
    }
  }

  lemma {:induction false} BindPrints(t: Type, u: Type)
    requires Shaped(t) && Shaped(u)
    ensures Print(Bind(t, u)) == Print(t) + [Amp] + Print(u)
    decreases |t.alternatives|
  {
    if |t.alternatives| == 1 {
      BindOnePrints(t, u);
    } else {
      hide PrintAlternatives, ShapedConjunction;
      var first := [t.alternatives[0]];
      var t' := Type(t.alternatives[1..]);
      BindPrints(t', u);
      assert Bind(t, u).alternatives == first + Bind(t', u).alternatives by { hide PrintParts; }
      assert t.alternatives == first + t'.alternatives;
      PrintConcatenated(first, Bind(t', u).alternatives);
      PrintConcatenated(first, t'.alternatives);
    }
  }

  lemma BindOnePrints(t: Type, u: Type)
    requires Shaped(t) && Shaped(u) && |t.alternatives| == 1
    ensures Print(Bind(t, u)) == Print(t) + [Amp] + Print(u)
  {
    hide PrintParts;
    var first, others := t.alternatives[0], u.alternatives[0];
    assert ShapedConjunction(first) && ShapedConjunction(others);
    var joined := Conjunction(first.parts + others.parts);
    PrintPartsConcatenated(first.parts, others.parts);
    assert Bind(t, u).alternatives == [joined] + u.alternatives[1..];
    if |u.alternatives| > 1 { assert ([joined] + u.alternatives[1..])[1..] == u.alternatives[1..]; }
  }

  lemma {:induction false} AndJoinPrints(types: seq<Type>)
    requires AllShaped(types) && types != []
    ensures Print(AndJoin(types)) == Join(Prints(types), Amp)
  {
    if |types| > 1 {
      assert Shaped(types[0]) && AllShaped(types[1..]);
      AndJoinShaped(types[1..]);
      AndJoinPrints(types[1..]);
      BindPrints(types[0], AndJoin(types[1..]));
      assert Prints(types)[1..] == Prints(types[1..]);
    }
  }

  lemma {:induction false} MappedAppend<T, U>(s: seq<T>, last: T, f: T -> U)
    ensures Mapped(s + [last], f) == Mapped(s, f) + [f(last)]
  {}

  /** Removing equal images and removing equal elements is the same for an injective function. */
  lemma {:induction false} DeduplicatedMapped<T, U>(s: seq<T>, f: T -> U)
    requires forall x, y :: x in s && y in s && f(x) == f(y) ==> x == y
    ensures Deduplicated(Mapped(s, f)) == Mapped(Deduplicated(s), f)
  {
    if s != [] {
      var front, last := s[..|s| - 1], s[|s| - 1];
      assert forall i :: 0 <= i < |front| ==> front[i] == s[i];
      DeduplicatedMapped(front, f);
      LastMapped(front, last, f);
      assert s == front + [last];
    }
  }

  lemma KeptInjective<T, U>(front: seq<T>, last: T, f: T -> U)
    requires forall x :: x in front && f(x) == f(last) ==> x == last
    ensures forall x :: x in Deduplicated(front) && f(x) == f(last) ==> x == last
  {
    DeduplicatedMembers(front);
  }

  lemma LastMapped<T, U>(front: seq<T>, last: T, f: T -> U)
    requires forall x :: x in front && f(x) == f(last) ==> x == last
    requires Deduplicated(Mapped(front, f)) == Mapped(Deduplicated(front), f)
    ensures Deduplicated(Mapped(front + [last], f)) == Mapped(Deduplicated(front + [last]), f)
  {
    hide Deduplicated, Mapped;
    KeptInjective(front, last, f);
    var kept := Deduplicated(front);
    KeptImage(kept, last, f);
    MappedAppend(front, last, f);
    MappedAppend(kept, last, f);
    DeduplicatedLast(front, last);
    DeduplicatedLast(Mapped(front, f), f(last));
  }

  lemma DeduplicatedLast<T>(front: seq<T>, last: T)
    ensures Deduplicated(front + [last])
         == if last in Deduplicated(front) then Deduplicated(front) else Deduplicated(front) + [last]
  {
    assert (front + [last])[..|front|] == front;
  }

  lemma KeptImage<T, U>(kept: seq<T>, last: T, f: T -> U)
    requires forall x :: x in kept && f(x) == f(last) ==> x == last
    ensures f(last) in Mapped(kept, f) <==> last in kept
  {
    if f(last) in Mapped(kept, f) {
      var i :| 0 <= i < |kept| && Mapped(kept, f)[i] == f(last);
      assert kept[i] in kept;
    }
    if last in kept {
      var i :| 0 <= i < |kept| && kept[i] == last;
      assert Mapped(kept, f)[i] == f(last);
    }
  }

  /** Removing equal texts and removing equal types is the same thing. */
  lemma DeduplicatedPrints(types: seq<Type>)
    requires AllShaped(types)
    ensures Deduplicated(Prints(types)) == Prints(Deduplicated(types))
  {
    forall t, u | t in types && u in types && Print(t) == Print(u) ensures t == u {
      PrintInjective(t, u);
    }
    DeduplicatedMapped(types, Print);
  }

  lemma JoinedText(types: seq<Type>)
    requires AllShaped(types) && types != []
    ensures Join(Deduplicated(Prints(types)), Bar) == Print(OrJoin(Deduplicated(types)))
    ensures Join(Deduplicated(Prints(types)), Amp) == Print(AndJoin(Deduplicated(types)))
  {
    DeduplicatedPrints(types);
    DeduplicatedShaped(types);
    OrJoinPrints(Deduplicated(types));
    AndJoinPrints(Deduplicated(types));
  }

  // ----- the generated text denotes `Denoted`

  lemma {:induction false} LiteralTextsDenote(values: seq<Json>)
    ensures LiteralTexts(values).Ok? ==> LiteralTexts(values).value == Prints(LiteralTypes(values))
  {
    if values != [] {
      LiteralTextsDenote(values[1..]);
      SingleShaped(Named(LiteralName(values[0])));
      var t, u := LiteralType(values[0]), LiteralTypes(values[1..]);
      assert Prints([t] + u) == [Print(t)] + Prints(u);
    }
  }

  lemma {:induction false} RenderDenotes(s: Schema)
    ensures Render(s).Ok? ==> Render(s).value == Print(Denoted(s))
    decreases s, 2
  {
    hide Shaped, AllShaped, OrJoin, AndJoin, Single, DenotedAll, DenotedKind, DenotedKinds, RenderAll,
      RenderKind, RenderKinds, Print, Join, LiteralTypes, LiteralTexts, Prints, ReferenceName, LiteralName;
    match s
    case Always(_) => SingleShaped(Named(JsonValueType)); PrintNamed(JsonValueType);
    case Keywords(reference, constant, enumeration, oneOf, anyOf, allOf, kind, _, _, _, _) =>
      if reference.Some? {
        match reference.value
        case Local(name) => PrintNamed(Reference(ReferenceName(name)));
        case Foreign(uri) =>
      } else if constant.Some? {
        PrintNamed(LiteralName(constant.value));
      } else if NonEmpty(enumeration) {
        LiteralTextsDenote(enumeration.value);
        LiteralTypesShaped(enumeration.value);
        JoinedText(LiteralTypes(enumeration.value));
      } else if Given(oneOf) {
        VariantsDenote(oneOf.list);
      } else if Given(anyOf) {
        VariantsDenote(anyOf.list);
      } else if Given(allOf) {
        VariantsDenote(allOf.list);
      } else {
        match kind
        case AnyKind => RenderKindDenotes(s, None);
        case OneKind(name) => RenderKindDenotes(s, Some(name));
        case ManyKinds(names) =>
          RenderKindsDenote(s, names);
          DenotedKindsShaped(s, names);
          JoinedText(DenotedKinds(s, names));
      }
  }

  lemma PrintNamed(n: Name)
    ensures Print(Single(Named(n))) == [Word(n)]
  {
    SingleShaped(Named(n));
  }

  lemma {:induction false} VariantsDenote(variants: seq<Schema>)
    requires variants != []
    ensures RenderAll(variants).Ok? ==>
      && Join(Deduplicated(RenderAll(variants).value), Bar) == Print(OrJoin(Deduplicated(DenotedAll(variants))))
      && Join(Deduplicated(RenderAll(variants).value), Amp) == Print(AndJoin(Deduplicated(DenotedAll(variants))))
    decreases variants, 1
  {
    RenderAllDenotes(variants);
    DenotedAllShaped(variants);
    JoinedText(DenotedAll(variants));
  }

  lemma {:induction false} RenderAllDenotes(variants: seq<Schema>)
    ensures RenderAll(variants).Ok? ==> RenderAll(variants).value == Prints(DenotedAll(variants))
    decreases variants, 0
  {
    hide Render, Denoted, Print;
    if variants != [] {
      RenderDenotes(variants[0]);
      RenderAllDenotes(variants[1..]);
      var t, u := Denoted(variants[0]), DenotedAll(variants[1..]);
      assert Prints([t] + u) == [Print(t)] + Prints(u);
    }
  }

  lemma {:induction false} RenderKindsDenote(s: Schema, names: seq<string>)
    requires s.Keywords?
    ensures RenderKinds(s, names).Ok? ==> RenderKinds(s, names).value == Prints(DenotedKinds(s, names))
    decreases s, 1, |names|
  {
    hide RenderKind, DenotedKind, Print;
    if names != [] {
      RenderKindDenotes(s, Some(names[0]));
      RenderKindsDenote(s, names[1..]);
      var t, u := DenotedKind(s, Some(names[0])), DenotedKinds(s, names[1..]);
      assert Prints([t] + u) == [Print(t)] + Prints(u);
    }
  }

  lemma {:induction false} RenderKindDenotes(s: Schema, kind: Option<string>)
    requires s.Keywords?
    ensures RenderKind(s, kind).Ok? ==> RenderKind(s, kind).value == Print(DenotedKind(s, kind))
    decreases s, 0
  {
    PrintNamed(JsonValueType);
    PrintNamed(NeverType);
    hide Shaped, Denoted, Render, DenotedMembers, RenderMembers, Single, Print;
    if kind.Some? && ScalarName(kind.value).Some? {
      PrintNamed(ScalarName(kind.value).value);
    } else if kind == Some("array") {
      var element := if s.items.Some? then Denoted(s.items.value) else Single(Named(JsonValueType));
      if s.items.Some? { RenderDenotes(s.items.value); }
      PrintSingle(ArrayOf(element));
    } else if ObjectKind(s, kind) {
      if GivenMembers(s.properties) {
        RenderMembersDenote(s.properties.list, s.required);
        PrintSingle(ObjectOf(DenotedMembers(s.properties.list, s.required)));
      } else {
        match s.additional
        case Constrained(values) =>
          RenderDenotes(values);
          PrintSingle(RecordOf(Denoted(values)));
        case _ =>
          PrintSingle(RecordOf(Single(Named(JsonValueType))));
          PrintSingle(RecordOf(Single(Named(NeverType))));
      }
    }
  }

  lemma PrintSingle(p: Primary)
    ensures Print(Single(p)) == PrintPrimary(p)
  {
    assert Print(Single(p)) == PrintAlternatives([Conjunction([p])]) == PrintParts([p]);
  }

  lemma {:induction false} RenderMembersDenote(members: seq<Member>, required: seq<string>)
    ensures RenderMembers(members, required).Ok? ==>
      RenderMembers(members, required).value == PrintFields(DenotedMembers(members, required))
    decreases members, 0
  {
    hide Render, Denoted, Print;
    if members != [] {
      RenderDenotes(members[0].schema);
      RenderMembersDenote(members[1..], required);
      var rest := DenotedMembers(members[1..], required);
      var f := Field(members[0].name, members[0].name !in required, Denoted(members[0].schema));
      assert ([f] + rest)[1..] == rest;
    }
  }

  /** The generated text parses, under TypeScript's precedence, to exactly one type, the denoted one. */
  lemma TextParsesToDenoted(s: Schema)
    requires Render(s).Ok?
    ensures ParseType(Render(s).value) == Some((Denoted(s), []))
  {
    RenderDenotes(s);
    DenotedShaped(s);
    ParsePrintedType(Denoted(s), []);
    assert Print(Denoted(s)) + [] == Print(Denoted(s));
  }
}
