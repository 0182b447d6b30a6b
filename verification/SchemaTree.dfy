/** When the text generated by scripts/generate_frontend_contracts.py has the structure of the schema. */
module SchemaTree {
  import opened Results
  import opened TypeText
  import opened SchemaText

  /** A type as a tree: unions and intersections of any type, without the limits of a grammar. */
  datatype Tree =
    | Leaf(name: Name)
    | ArrayTree(element: Tree)
    | RecordTree(element: Tree)
    | ObjectTree(fields: seq<TreeField>)
    | UnionTree(members: seq<Tree>)
    | IntersectionTree(members: seq<Tree>)
  datatype TreeField = TreeField(name: string, optional: bool, content: Tree)

  function UnionMembers(t: Tree): seq<Tree> { if t.UnionTree? then t.members else [t] }

  function IntersectionMembers(t: Tree): seq<Tree> {
    if t.IntersectionTree? && |t.members| > 1 then t.members else [t]
  }

  function FlatUnion(trees: seq<Tree>): seq<Tree> {
    if trees == [] then [] else UnionMembers(trees[0]) + FlatUnion(trees[1..])
  }

  function FlatIntersection(trees: seq<Tree>): seq<Tree> {
    if trees == [] then [] else IntersectionMembers(trees[0]) + FlatIntersection(trees[1..])
  }

  function Union(trees: seq<Tree>): Tree {
    var members := FlatUnion(trees);
    if |members| == 1 then members[0] else UnionTree(members)
  }

  function Intersection(trees: seq<Tree>): Tree {
    var members := FlatIntersection(trees);
    if |members| == 1 then members[0] else IntersectionTree(members)
  }

  // ----- the tree of a parsed type

  function TreeOf(t: Type): Tree
    decreases t, 1
  {
    Union(AlternativeTrees(t.alternatives))
  }

  function AlternativeTrees(alternatives: seq<Conjunction>): seq<Tree>
    decreases alternatives, 0
  {
    if alternatives == [] then []
    else [Intersection(PartTrees(alternatives[0].parts))] + AlternativeTrees(alternatives[1..])
  }

  function PartTrees(parts: seq<Primary>): seq<Tree>
    decreases parts, 0
  {
    if parts == [] then [] else [PrimaryTree(parts[0])] + PartTrees(parts[1..])
  }

  function PrimaryTree(p: Primary): Tree
    decreases p, 0
  {
    match p
    case Named(n) => Leaf(n)
    case ArrayOf(e) => ArrayTree(TreeOf(e))
    case RecordOf(e) => RecordTree(TreeOf(e))
    case ObjectOf(fields) => ObjectTree(FieldTrees(fields))
    case Group(t) => TreeOf(t)
  }

  function FieldTrees(fields: seq<Field>): seq<TreeField>
    decreases fields, 0
  {
    if fields == [] then []
    else [TreeField(fields[0].name, fields[0].optional, TreeOf(fields[0].content))] + FieldTrees(fields[1..])
  }

  // ----- the tree a schema describes

  function LiteralTrees(values: seq<Json>): seq<Tree> {
    if values == [] then [] else [Leaf(LiteralName(values[0]))] + LiteralTrees(values[1..])
  }

  /** The type tree a schema describes, before any text is written. */
  function Described(s: Schema): Tree
    decreases s, 2
  {
    match s
    case Always(_) => Leaf(JsonValueType)
    case Keywords(reference, constant, enumeration, oneOf, anyOf, allOf, kind, _, _, _, _) =>
      if reference.Some? then
        match reference.value
        case Local(name) => Leaf(Reference(ReferenceName(name)))
        case Foreign(uri) => Leaf(Reference(uri))
      else if constant.Some? then Leaf(LiteralName(constant.value))
      else if NonEmpty(enumeration) then Union(Deduplicated(LiteralTrees(enumeration.value)))
      else if Given(oneOf) then Union(Deduplicated(DescribedAll(oneOf.list)))
      else if Given(anyOf) then Union(Deduplicated(DescribedAll(anyOf.list)))
      else if Given(allOf) then Intersection(Deduplicated(DescribedAll(allOf.list)))
      else match kind
        case AnyKind => DescribedKind(s, None)
        case OneKind(name) => DescribedKind(s, Some(name))
        case ManyKinds(names) => Union(Deduplicated(DescribedKinds(s, names)))
  }

  function DescribedAll(variants: seq<Schema>): seq<Tree>
    decreases variants, 0
  {
    if variants == [] then [] else [Described(variants[0])] + DescribedAll(variants[1..])
  }

  function DescribedKinds(s: Schema, names: seq<string>): seq<Tree>
    requires s.Keywords?
    decreases s, 1, |names|
  {
    if names == [] then [] else [DescribedKind(s, Some(names[0]))] + DescribedKinds(s, names[1..])
  }

  function DescribedKind(s: Schema, kind: Option<string>): Tree
    requires s.Keywords?
    decreases s, 0
  {
    if kind.Some? && ScalarName(kind.value).Some? then Leaf(ScalarName(kind.value).value)
    else if kind == Some("array") then
      ArrayTree(if s.items.Some? then Described(s.items.value) else Leaf(JsonValueType))
    else if ObjectKind(s, kind) then
      if GivenMembers(s.properties) then ObjectTree(DescribedMembers(s.properties.list, s.required))
      else match s.additional
        case Flag(true) => RecordTree(Leaf(JsonValueType))
        case Constrained(values) => RecordTree(Described(values))
        case _ => RecordTree(Leaf(NeverType))
    else Leaf(JsonValueType)
  }

  function DescribedMembers(members: seq<Member>, required: seq<string>): seq<TreeField>
    decreases members, 0
  {
    if members == [] then []
    else [TreeField(members[0].name, members[0].name !in required, Described(members[0].schema))]
         + DescribedMembers(members[1..], required)
  }

  // ----- the condition

  /** No `allOf` that keeps several variants has one whose text is a union at top level. */
  predicate UnionFree(s: Schema)
    decreases s, 2
  {
    match s
    case Always(_) => true
    case Keywords(reference, constant, enumeration, oneOf, anyOf, allOf, kind, _, _, _, _) =>
      if reference.Some? || constant.Some? || NonEmpty(enumeration) then true
      else if Given(oneOf) then UnionFreeAll(oneOf.list)
      else if Given(anyOf) then UnionFreeAll(anyOf.list)
      else if Given(allOf) then
        && UnionFreeAll(allOf.list)
        && (var kept := Deduplicated(DenotedAll(allOf.list)); |kept| > 1 ==> AllSingle(kept))
      else match kind
        case AnyKind => UnionFreeKind(s, None)
        case OneKind(name) => UnionFreeKind(s, Some(name))
        case ManyKinds(names) => UnionFreeKinds(s, names)
  }

  predicate AllSingle(types: seq<Type>) {
    forall t :: t in types ==> |t.alternatives| == 1
  }

  predicate UnionFreeAll(variants: seq<Schema>)
    decreases variants, 0
  {
    variants == [] || (UnionFree(variants[0]) && UnionFreeAll(variants[1..]))
  }

  predicate UnionFreeKinds(s: Schema, names: seq<string>)
    requires s.Keywords?
    decreases s, 1, |names|
  {
    names == [] || (UnionFreeKind(s, Some(names[0])) && UnionFreeKinds(s, names[1..]))
  }

  predicate UnionFreeKind(s: Schema, kind: Option<string>)
    requires s.Keywords?
    decreases s, 0
  {
    if kind.Some? && ScalarName(kind.value).Some? then true
    else if kind == Some("array") then s.items.Some? ==> UnionFree(s.items.value)
    else if ObjectKind(s, kind) then
      if GivenMembers(s.properties) then UnionFreeMembers(s.properties.list)
      else s.additional.Constrained? ==> UnionFree(s.additional.schema)
    else true
  }

  predicate UnionFreeMembers(members: seq<Member>)
    decreases members, 0
  {
    members == [] || (UnionFree(members[0].schema) && UnionFreeMembers(members[1..]))
  }

  // ----- types and their trees correspond one to one

  predicate Basic(t: Tree) { !t.UnionTree? && !t.IntersectionTree? }

  lemma {:induction false} PartTreesBasic(parts: seq<Primary>)
    requires forall i :: 0 <= i < |parts| ==> ShapedPrimary(parts[i])
    ensures |PartTrees(parts)| == |parts|
    ensures forall t :: t in PartTrees(parts) ==> Basic(t)
    ensures FlatIntersection(PartTrees(parts)) == PartTrees(parts)
  {
    if parts != [] {
      assert ShapedPrimary(parts[0]);
      PartTreesBasic(parts[1..]);
    }
  }

  lemma ConjunctionTree(c: Conjunction)
    requires ShapedConjunction(c)
    ensures Intersection(PartTrees(c.parts))
         == if |c.parts| == 1 then PrimaryTree(c.parts[0]) else IntersectionTree(PartTrees(c.parts))
    ensures !Intersection(PartTrees(c.parts)).UnionTree?
    ensures IntersectionMembers(Intersection(PartTrees(c.parts))) == PartTrees(c.parts)
  {
    PartTreesBasic(c.parts);
    assert PartTrees(c.parts)[0] in PartTrees(c.parts);
  }

  lemma {:induction false} AlternativeTreesFlat(alternatives: seq<Conjunction>)
    requires forall i :: 0 <= i < |alternatives| ==> ShapedConjunction(alternatives[i])
    ensures |AlternativeTrees(alternatives)| == |alternatives|
    ensures forall t :: t in AlternativeTrees(alternatives) ==> !t.UnionTree?
    ensures FlatUnion(AlternativeTrees(alternatives)) == AlternativeTrees(alternatives)
  {
    hide ShapedConjunction;
    if alternatives != [] {
      ConjunctionTree(alternatives[0]);
      AlternativeTreesFlat(alternatives[1..]);
    }
  }

  lemma TypeTree(t: Type)
    requires Shaped(t)
    ensures UnionMembers(TreeOf(t)) == AlternativeTrees(t.alternatives)
    ensures TreeOf(t).UnionTree? <==> |t.alternatives| > 1
  {
    AlternativeTreesFlat(t.alternatives);
    assert AlternativeTrees(t.alternatives)[0] in AlternativeTrees(t.alternatives);
  }

  /** Reading a type back off its tree. */
  function TypeFrom(t: Tree): Type
    decreases t, 3
  {
    if t.UnionTree? then Type(ConjunctionsFrom(t.members)) else Type([ConjunctionFrom(t)])
  }

  function ConjunctionsFrom(trees: seq<Tree>): seq<Conjunction>
    decreases trees, 0
  {
    if trees == [] then [] else [ConjunctionFrom(trees[0])] + ConjunctionsFrom(trees[1..])
  }

  function ConjunctionFrom(t: Tree): Conjunction
    decreases t, 2
  {
    if t.IntersectionTree? then Conjunction(PartsFrom(t.members)) else Conjunction([PrimaryFrom(t)])
  }

  function PartsFrom(trees: seq<Tree>): seq<Primary>
    decreases trees, 0
  {
    if trees == [] then [] else [PrimaryFrom(trees[0])] + PartsFrom(trees[1..])
  }

  function PrimaryFrom(t: Tree): Primary
    decreases t, 1
  {
    match t
    case Leaf(n) => Named(n)
    case ArrayTree(e) => ArrayOf(TypeFrom(e))
    case RecordTree(e) => RecordOf(TypeFrom(e))
    case ObjectTree(fields) => ObjectOf(FieldsFrom(fields))
    case _ => Named(NeverType)
  }

  function FieldsFrom(fields: seq<TreeField>): seq<Field>
    decreases fields, 0
  {
    if fields == [] then []
    else [Field(fields[0].name, fields[0].optional, TypeFrom(fields[0].content))] + FieldsFrom(fields[1..])
  }

  lemma {:induction false} TypeFromTree(t: Type)
    requires Shaped(t)
    ensures TypeFrom(TreeOf(t)) == t
    decreases t, 1
  {
    TypeTree(t);
    AlternativesFromTrees(t.alternatives);
    AlternativeTreesFlat(t.alternatives);
    if |t.alternatives| == 1 {
      var c := t.alternatives[0];
      assert ConjunctionsFrom(AlternativeTrees(t.alternatives)) == [c];
      assert TreeOf(t) == AlternativeTrees(t.alternatives)[0];
    }
  }

  lemma {:induction false} AlternativesFromTrees(alternatives: seq<Conjunction>)
    requires forall i :: 0 <= i < |alternatives| ==> ShapedConjunction(alternatives[i])
    ensures ConjunctionsFrom(AlternativeTrees(alternatives)) == alternatives
    decreases alternatives, 0
  {
    if alternatives != [] {
      var c := alternatives[0];
      assert ShapedConjunction(c);
      ConjunctionTree(c);
      PartsFromTrees(c.parts);
      PartTreesBasic(c.parts);
      assert PartTrees(c.parts)[0] in PartTrees(c.parts);
      if |c.parts| == 1 { assert c.parts == [c.parts[0]]; }
      assert ConjunctionFrom(Intersection(PartTrees(c.parts))) == c;
      AlternativesFromTrees(alternatives[1..]);
      var rest := AlternativeTrees(alternatives[1..]);
      assert ([Intersection(PartTrees(c.parts))] + rest)[1..] == rest;
    }
  }

  lemma {:induction false} PartsFromTrees(parts: seq<Primary>)
    requires forall i :: 0 <= i < |parts| ==> ShapedPrimary(parts[i])
    ensures PartsFrom(PartTrees(parts)) == parts
    decreases parts, 0
  {
    if parts != [] {
      assert ShapedPrimary(parts[0]);
      PrimaryFromTree(parts[0]);
      PartsFromTrees(parts[1..]);
      var rest := PartTrees(parts[1..]);
      assert ([PrimaryTree(parts[0])] + rest)[1..] == rest;
    }
  }

  lemma {:induction false} PrimaryFromTree(p: Primary)
    requires ShapedPrimary(p)
    ensures PrimaryFrom(PrimaryTree(p)) == p
    decreases p, 0
  {
    match p
    case Named(_) =>
    case ArrayOf(e) => TypeFromTree(e);
    case RecordOf(e) => TypeFromTree(e);
    case ObjectOf(fields) => FieldsFromTrees(fields);
  }

  lemma {:induction false} FieldsFromTrees(fields: seq<Field>)
    requires forall i :: 0 <= i < |fields| ==> Shaped(fields[i].content)
    ensures FieldsFrom(FieldTrees(fields)) == fields
    decreases fields, 0
  {
    if fields != [] {
      TypeFromTree(fields[0].content);
      FieldsFromTrees(fields[1..]);
      var rest := FieldTrees(fields[1..]);
      var f := TreeField(fields[0].name, fields[0].optional, TreeOf(fields[0].content));
      assert ([f] + rest)[1..] == rest;
    }
  }

  function Trees(types: seq<Type>): seq<Tree> { Mapped(types, TreeOf) }

  lemma DeduplicatedTrees(types: seq<Type>)
    requires AllShaped(types)
    ensures Deduplicated(Trees(types)) == Trees(Deduplicated(types))
  {
    forall t, u | t in types && u in types && TreeOf(t) == TreeOf(u) ensures t == u {
      TypeFromTree(t);
      TypeFromTree(u);
    }
    DeduplicatedMapped(types, TreeOf);
  }

  // ----- trees of joined types

  lemma {:induction false} AlternativeTreesAppend(a: seq<Conjunction>, b: seq<Conjunction>)
    ensures AlternativeTrees(a + b) == AlternativeTrees(a) + AlternativeTrees(b)
  {
    hide PartTrees, Intersection;
    if a == [] {
      assert a + b == b;
    } else {
      AlternativeTreesAppend(a[1..], b);
      AlternativeTreesCons(a[0], a[1..]);
      AlternativeTreesCons(a[0], a[1..] + b);
      hide AlternativeTrees;
      assert a == [a[0]] + a[1..] && a + b == [a[0]] + (a[1..] + b);
    }
  }

  lemma AlternativeTreesCons(c: Conjunction, rest: seq<Conjunction>)
    ensures AlternativeTrees([c] + rest) == [Intersection(PartTrees(c.parts))] + AlternativeTrees(rest)
  {
    hide PartTrees, Intersection;
    assert ([c] + rest)[0] == c && ([c] + rest)[1..] == rest;
  }

  lemma {:induction false} PartTreesAppend(a: seq<Primary>, b: seq<Primary>)
    ensures PartTrees(a + b) == PartTrees(a) + PartTrees(b)
  {
    if a == [] {
      assert a + b == b;
    } else {
      PartTreesAppend(a[1..], b);
      assert (a + b)[1..] == a[1..] + b;
    }
  }

  lemma {:induction false} OrJoinMembers(types: seq<Type>)
    requires AllShaped(types)
    ensures AlternativeTrees(OrJoin(types).alternatives) == FlatUnion(Trees(types))
  {
    if types != [] {
      assert Shaped(types[0]) && AllShaped(types[1..]);
      OrJoinMembers(types[1..]);
      TypeTree(types[0]);
      AlternativeTreesAppend(types[0].alternatives, OrJoin(types[1..]).alternatives);
    }
  }

  lemma OrJoinTree(types: seq<Type>)
    requires AllShaped(types) && types != []
    ensures TreeOf(OrJoin(types)) == Union(Trees(types))
  {
    OrJoinMembers(types);
    OrJoinShaped(types);
    AlternativeTreesFlat(OrJoin(types).alternatives);
  }

  lemma {:induction false} AndJoinSingle(types: seq<Type>)
    requires AllShaped(types) && AllSingle(types) && types != []
    ensures |AndJoin(types).alternatives| == 1
    ensures PartTrees(AndJoin(types).alternatives[0].parts) == FlatIntersection(Trees(types))
  {
    var t := types[0];
    assert Shaped(t) && |t.alternatives| == 1;
    assert ShapedConjunction(t.alternatives[0]);
    ConjunctionTree(t.alternatives[0]);
    TypeTree(t);
    assert IntersectionMembers(TreeOf(t)) == PartTrees(t.alternatives[0].parts);
    if |types| > 1 {
      assert AllShaped(types[1..]) && AllSingle(types[1..]);
      AndJoinSingle(types[1..]);
      PartTreesAppend(t.alternatives[0].parts, AndJoin(types[1..]).alternatives[0].parts);
    }
  }

  lemma AndJoinTree(types: seq<Type>)
    requires AllShaped(types) && types != [] && (|types| > 1 ==> AllSingle(types))
    ensures TreeOf(AndJoin(types)) == Intersection(Trees(types))
  {
    if |types| == 1 {
      assert Trees(types) == [TreeOf(types[0])];
      assert Shaped(types[0]);
      OneIntersection(types[0]);
    } else {
      AndJoinSingle(types);
      AndJoinShaped(types);
      TypeTree(AndJoin(types));
      AlternativeTreesFlat(AndJoin(types).alternatives);
      ConjunctionTree(AndJoin(types).alternatives[0]);
    }
  }

  lemma OneIntersection(t: Type)
    requires Shaped(t)
    ensures Intersection([TreeOf(t)]) == TreeOf(t)
  {
    TypeTree(t);
    var tree := TreeOf(t);
    assert FlatIntersection([tree]) == IntersectionMembers(tree);
    if tree.IntersectionTree? {
      assert ShapedConjunction(t.alternatives[0]);
      ConjunctionTree(t.alternatives[0]);
      PartTreesBasic(t.alternatives[0].parts);
    }
  }

  // ----- the condition is sufficient

  lemma {:induction false} LiteralTreesMatch(values: seq<Json>)
    ensures Trees(LiteralTypes(values)) == LiteralTrees(values)
  {
    if values != [] {
      LiteralTreesMatch(values[1..]);
      SingleTree(Named(LiteralName(values[0])));
    }
  }

  lemma SingleTree(p: Primary)
    requires ShapedPrimary(p)
    ensures TreeOf(Single(p)) == PrimaryTree(p)
  {
    SingleShaped(p);
    assert Single(p).alternatives == [Conjunction([p])];
    TypeTree(Single(p));
    ConjunctionTree(Conjunction([p]));
  }

  lemma UnionOf(types: seq<Type>, trees: seq<Tree>)
    requires AllShaped(types) && types != [] && Trees(types) == trees
    ensures TreeOf(OrJoin(Deduplicated(types))) == Union(Deduplicated(trees))
  {
    DeduplicatedShaped(types);
    DeduplicatedTrees(types);
    OrJoinTree(Deduplicated(types));
  }

  lemma IntersectionOf(types: seq<Type>, trees: seq<Tree>)
    requires AllShaped(types) && types != [] && Trees(types) == trees
    requires |Deduplicated(types)| > 1 ==> AllSingle(Deduplicated(types))
    ensures TreeOf(AndJoin(Deduplicated(types))) == Intersection(Deduplicated(trees))
  {
    DeduplicatedShaped(types);
    DeduplicatedTrees(types);
    AndJoinTree(Deduplicated(types));
  }

  lemma {:induction false} DescribedMatches(s: Schema)
    requires UnionFree(s)
    ensures TreeOf(Denoted(s)) == Described(s)
    decreases s, 2
  {
    hide Shaped, AllShaped, OrJoin, AndJoin, Single, Union, Intersection, TreeOf, Trees, Deduplicated, AllSingle,
      DenotedAll, DenotedKind, DenotedKinds, DescribedAll, DescribedKind, DescribedKinds,
      UnionFreeAll, UnionFreeKind, UnionFreeKinds, LiteralTypes, LiteralTrees;
    match s
    case Always(_) => SingleTree(Named(JsonValueType));
    case Keywords(reference, constant, enumeration, oneOf, anyOf, allOf, kind, _, _, _, _) =>
      if reference.Some? {
        match reference.value
        case Local(name) => SingleTree(Named(Reference(ReferenceName(name))));
        case Foreign(uri) => SingleTree(Named(Reference(uri)));
      } else if constant.Some? {
        SingleTree(Named(LiteralName(constant.value)));
      } else if NonEmpty(enumeration) {
        LiteralTypesShaped(enumeration.value);
        LiteralTreesMatch(enumeration.value);
        UnionOf(LiteralTypes(enumeration.value), LiteralTrees(enumeration.value));
      } else if Given(oneOf) {
        DescribedAllMatches(oneOf.list);
        DenotedAllShaped(oneOf.list);
        UnionOf(DenotedAll(oneOf.list), DescribedAll(oneOf.list));
      } else if Given(anyOf) {
        DescribedAllMatches(anyOf.list);
        DenotedAllShaped(anyOf.list);
        UnionOf(DenotedAll(anyOf.list), DescribedAll(anyOf.list));
      } else if Given(allOf) {
        DescribedAllMatches(allOf.list);
        DenotedAllShaped(allOf.list);
        IntersectionOf(DenotedAll(allOf.list), DescribedAll(allOf.list));
      } else {
        match kind
        case AnyKind => DescribedKindMatches(s, None);
        case OneKind(name) => DescribedKindMatches(s, Some(name));
        case ManyKinds(names) =>
          DescribedKindsMatch(s, names);
          DenotedKindsShaped(s, names);
          UnionOf(DenotedKinds(s, names), DescribedKinds(s, names));
      }
  }

  lemma {:induction false} DescribedAllMatches(variants: seq<Schema>)
    requires UnionFreeAll(variants)
    ensures Trees(DenotedAll(variants)) == DescribedAll(variants)
    decreases variants, 0
  {
    hide Denoted, Described, UnionFree, TreeOf;
    if variants != [] {
      DescribedMatches(variants[0]);
      DescribedAllMatches(variants[1..]);
    }
  }

  lemma {:induction false} DescribedKindsMatch(s: Schema, names: seq<string>)
    requires s.Keywords? && UnionFreeKinds(s, names)
    ensures Trees(DenotedKinds(s, names)) == DescribedKinds(s, names)
    decreases s, 1, |names|
  {
    hide DenotedKind, DescribedKind, UnionFreeKind, TreeOf;
    if names != [] {
      DescribedKindMatches(s, Some(names[0]));
      DescribedKindsMatch(s, names[1..]);
    }
  }

  lemma {:induction false} DescribedKindMatches(s: Schema, kind: Option<string>)
    requires s.Keywords? && UnionFreeKind(s, kind)
    ensures TreeOf(DenotedKind(s, kind)) == DescribedKind(s, kind)
    decreases s, 0
  {
    hide Shaped, Denoted, Described, UnionFree, Single, TreeOf, DenotedMembers, DescribedMembers, UnionFreeMembers;
    SingleTree(Named(JsonValueType));
    if kind.Some? && ScalarName(kind.value).Some? {
      SingleTree(Named(ScalarName(kind.value).value));
    } else if kind == Some("array") {
      var element := if s.items.Some? then Denoted(s.items.value) else Single(Named(JsonValueType));
      if s.items.Some? {
        DescribedMatches(s.items.value);
        DenotedShaped(s.items.value);
      } else {
        SingleShaped(Named(JsonValueType));
      }
      SingleTree(ArrayOf(element));
    } else if ObjectKind(s, kind) {
      if GivenMembers(s.properties) {
        DescribedMembersMatch(s.properties.list, s.required);
        DenotedMembersShaped(s.properties.list, s.required);
        SingleTree(ObjectOf(DenotedMembers(s.properties.list, s.required)));
      } else {
        match s.additional
        case Constrained(values) =>
          DescribedMatches(values);
          DenotedShaped(values);
          SingleTree(RecordOf(Denoted(values)));
        case _ =>
          NamedRecord(JsonValueType);
          NamedRecord(NeverType);
      }
    }
  }

  lemma NamedRecord(name: Name)
    ensures TreeOf(Single(RecordOf(Single(Named(name))))) == RecordTree(Leaf(name))
  {
    hide Single, TreeOf, Shaped;
    SingleShaped(Named(name));
    SingleTree(Named(name));
    SingleTree(RecordOf(Single(Named(name))));
  }

  lemma {:induction false} DescribedMembersMatch(members: seq<Member>, required: seq<string>)
    requires UnionFreeMembers(members)
    ensures FieldTrees(DenotedMembers(members, required)) == DescribedMembers(members, required)
    decreases members, 0
  {
    hide Denoted, Described, UnionFree, TreeOf;
    if members != [] {
      DescribedMatches(members[0].schema);
      DescribedMembersMatch(members[1..], required);
      var f := Field(members[0].name, members[0].name !in required, Denoted(members[0].schema));
      var rest := DenotedMembers(members[1..], required);
      assert ([f] + rest)[1..] == rest;
    }
  }

  // ----- the condition is necessary

  /** No union stands directly under an intersection, at any depth. */
  ghost predicate Clean(t: Tree) {
    match t
    case Leaf(_) => true
    case ArrayTree(e) => Clean(e)
    case RecordTree(e) => Clean(e)
    case ObjectTree(fields) => forall i :: 0 <= i < |fields| ==> Clean(fields[i].content)
    case UnionTree(members) => forall i :: 0 <= i < |members| ==> Clean(members[i])
    case IntersectionTree(members) => forall i :: 0 <= i < |members| ==> Clean(members[i]) && !members[i].UnionTree?
  }

  ghost predicate AllClean(trees: seq<Tree>) {
    forall t :: t in trees ==> Clean(t)
  }

  lemma {:induction false} FlatUnionClean(trees: seq<Tree>)
    ensures AllClean(FlatUnion(trees)) <==> AllClean(trees)
  {
    if trees != [] {
      FlatUnionClean(trees[1..]);
      var t := trees[0];
      assert trees == [t] + trees[1..];
      assert AllClean(UnionMembers(t)) <==> Clean(t) by {
        if t.UnionTree? && AllClean(t.members) {
          forall i | 0 <= i < |t.members| ensures Clean(t.members[i]) { assert t.members[i] in t.members; }
        }
      }
      AllCleanAppend(UnionMembers(t), FlatUnion(trees[1..]));
      AllCleanAppend([t], trees[1..]);
    }
  }

  lemma AllCleanAppend(a: seq<Tree>, b: seq<Tree>)
    ensures AllClean(a + b) <==> AllClean(a) && AllClean(b)
  {
    hide Clean;
    if AllClean(a + b) {
      forall t | t in a ensures Clean(t) { assert t in a + b; }
      forall t | t in b ensures Clean(t) { assert t in a + b; }
    }
  }

  lemma UnionClean(trees: seq<Tree>)
    requires trees != []
    ensures Clean(Union(trees)) <==> AllClean(trees)
  {
    FlatUnionClean(trees);
    var members := FlatUnion(trees);
    forall i | 0 <= i < |members| ensures AllClean(members) ==> Clean(members[i]) {
      assert members[i] in members;
    }
    if |members| == 1 {
      assert members == [members[0]];
    }
  }

  ghost predicate NoUnions(trees: seq<Tree>) {
    forall t :: t in trees ==> !t.UnionTree?
  }

  lemma {:induction false} FlatIntersectionClean(trees: seq<Tree>)
    requires AllClean(FlatIntersection(trees)) && NoUnions(FlatIntersection(trees))
    ensures AllClean(trees) && NoUnions(trees)
  {
    if trees != [] {
      var t, rest := trees[0], trees[1..];
      assert trees == [t] + rest;
      AllCleanAppend(IntersectionMembers(t), FlatIntersection(rest));
      forall m | m in FlatIntersection(rest) ensures !m.UnionTree? { assert m in FlatIntersection(trees); }
      FlatIntersectionClean(rest);
      forall m | m in IntersectionMembers(t) ensures !m.UnionTree? { assert m in FlatIntersection(trees); }
      if !t.IntersectionTree? { assert t in IntersectionMembers(t); }
      assert Clean(t);
    }
  }

  lemma IntersectionClean(trees: seq<Tree>)
    requires trees != [] && Clean(Intersection(trees))
    ensures AllClean(trees) && (|trees| > 1 ==> NoUnions(trees))
  {
    var members := FlatIntersection(trees);
    if |trees| == 1 {
      assert trees == [trees[0]];
      assert members == IntersectionMembers(trees[0]);
    } else {
      FlatIntersectionLong(trees);
      forall i | 0 <= i < |members| ensures Clean(members[i]) && !members[i].UnionTree? {}
      FlatIntersectionClean(trees);
    }
  }

  lemma {:induction false} FlatIntersectionLong(trees: seq<Tree>)
    ensures |FlatIntersection(trees)| >= |trees|
  {
    if trees != [] { FlatIntersectionLong(trees[1..]); }
  }

  lemma {:induction false} PartTreesClean(parts: seq<Primary>)
    requires forall i :: 0 <= i < |parts| ==> ShapedPrimary(parts[i])
    ensures forall i :: 0 <= i < |PartTrees(parts)| ==> Clean(PartTrees(parts)[i]) && !PartTrees(parts)[i].UnionTree?
    decreases parts, 0
  {
    hide ShapedPrimary;
    if parts != [] {
      assert ShapedPrimary(parts[0]);
      PrimaryClean(parts[0]);
      PartTreesClean(parts[1..]);
    }
  }

  lemma {:induction false} PrimaryClean(p: Primary)
    requires ShapedPrimary(p)
    ensures Clean(PrimaryTree(p)) && !PrimaryTree(p).UnionTree?
    decreases p, 0
  {
    match p
    case Named(_) =>
    case ArrayOf(e) => TreeClean(e);
    case RecordOf(e) => TreeClean(e);
    case ObjectOf(fields) => FieldTreesClean(fields);
  }

  lemma {:induction false} FieldTreesClean(fields: seq<Field>)
    requires forall i :: 0 <= i < |fields| ==> Shaped(fields[i].content)
    ensures forall i :: 0 <= i < |FieldTrees(fields)| ==> Clean(FieldTrees(fields)[i].content)
    decreases fields, 0
  {
    hide Shaped;
    if fields != [] {
      TreeClean(fields[0].content);
      FieldTreesClean(fields[1..]);
    }
  }

  lemma {:induction false} AlternativeTreesClean(alternatives: seq<Conjunction>)
    requires forall i :: 0 <= i < |alternatives| ==> ShapedConjunction(alternatives[i])
    ensures AllClean(AlternativeTrees(alternatives))
    decreases alternatives, 0
  {
    hide Clean;
    if alternatives != [] {
      var c := alternatives[0];
      assert ShapedConjunction(c);
      PartTreesClean(c.parts);
      ConjunctionTree(c);
      CleanIntersection(PartTrees(c.parts));
      assert |PartTrees(c.parts)| == |c.parts| by { PartTreesBasic(c.parts); }
      AlternativeTreesClean(alternatives[1..]);
    }
  }

  lemma CleanIntersection(members: seq<Tree>)
    requires forall i :: 0 <= i < |members| ==> Clean(members[i]) && !members[i].UnionTree?
    ensures Clean(IntersectionTree(members))
  {}

  /** The tree of any parsed text of ours is clean: the text has no parentheses but those of arrays. */
  lemma {:induction false} TreeClean(t: Type)
    requires Shaped(t)
    ensures Clean(TreeOf(t))
    decreases t, 1
  {
    hide Clean, Shaped;
    assert forall i :: 0 <= i < |t.alternatives| ==> ShapedConjunction(t.alternatives[i]) by { ShapedParts(t); }
    AlternativeTreesClean(t.alternatives);
    AlternativeTreesFlat(t.alternatives);
    ShapedParts(t);
    UnionClean(AlternativeTrees(t.alternatives));
  }

  lemma ShapedParts(t: Type)
    requires Shaped(t)
    ensures t.alternatives != [] && forall i :: 0 <= i < |t.alternatives| ==> ShapedConjunction(t.alternatives[i])
  {}

  lemma {:induction false} DeduplicatedNonEmpty<T>(s: seq<T>)
    requires s != []
    ensures Deduplicated(s) != []
  {
    DeduplicatedMembers(s);
    assert s[0] in Deduplicated(s);
  }

  lemma DescribedUnionClean(trees: seq<Tree>)
    requires trees != [] && Clean(Union(Deduplicated(trees)))
    ensures AllClean(trees)
  {
    hide Clean;
    DeduplicatedNonEmpty(trees);
    DeduplicatedMembers(trees);
    UnionClean(Deduplicated(trees));
  }

  lemma DescribedIntersectionClean(trees: seq<Tree>)
    requires trees != [] && Clean(Intersection(Deduplicated(trees)))
    ensures AllClean(trees) && (|Deduplicated(trees)| > 1 ==> NoUnions(Deduplicated(trees)))
  {
    hide Clean;
    DeduplicatedNonEmpty(trees);
    DeduplicatedMembers(trees);
    IntersectionClean(Deduplicated(trees));
  }

  lemma KeptSingle(types: seq<Type>, trees: seq<Tree>)
    requires AllShaped(types) && Trees(types) == trees
    requires |Deduplicated(trees)| > 1 ==> NoUnions(Deduplicated(trees))
    ensures |Deduplicated(types)| > 1 ==> AllSingle(Deduplicated(types))
  {
    DeduplicatedTrees(types);
    DeduplicatedMembers(types);
    var kept := Deduplicated(types);
    if |kept| > 1 {
      forall t | t in kept ensures |t.alternatives| == 1 {
        var i :| 0 <= i < |kept| && kept[i] == t;
        assert Trees(kept)[i] == TreeOf(t);
        assert TreeOf(t) in Trees(kept);
        TypeTree(t);
      }
    }
  }

  lemma {:induction false} CleanIsUnionFree(s: Schema)
    requires Clean(Described(s))
    ensures UnionFree(s)
    decreases s, 2
  {
    hide Clean, Shaped, AllShaped, Union, Intersection, Trees, Deduplicated, AllSingle, NoUnions, AllClean,
      DenotedAll, DescribedAll, DescribedKind, DescribedKinds, UnionFreeAll, UnionFreeKind, UnionFreeKinds;
    match s
    case Always(_) =>
    case Keywords(reference, constant, enumeration, oneOf, anyOf, allOf, kind, _, _, _, _) =>
      if reference.Some? || constant.Some? || NonEmpty(enumeration) {
      } else if Given(oneOf) {
        DescribedCount(oneOf.list);
        DescribedUnionClean(DescribedAll(oneOf.list));
        CleanAllUnionFree(oneOf.list);
      } else if Given(anyOf) {
        DescribedCount(anyOf.list);
        DescribedUnionClean(DescribedAll(anyOf.list));
        CleanAllUnionFree(anyOf.list);
      } else if Given(allOf) {
        DescribedCount(allOf.list);
        DescribedIntersectionClean(DescribedAll(allOf.list));
        CleanAllUnionFree(allOf.list);
        DescribedAllMatches(allOf.list);
        DenotedAllShaped(allOf.list);
        KeptSingle(DenotedAll(allOf.list), DescribedAll(allOf.list));
      } else {
        match kind
        case AnyKind => CleanKindUnionFree(s, None);
        case OneKind(name) => CleanKindUnionFree(s, Some(name));
        case ManyKinds(names) =>
          KindsCount(s, names);
          DescribedUnionClean(DescribedKinds(s, names));
          CleanKindsUnionFree(s, names);
      }
  }

  lemma {:induction false} DescribedCount(variants: seq<Schema>)
    ensures |DescribedAll(variants)| == |variants|
  {
    hide Described;
    if variants != [] { DescribedCount(variants[1..]); }
  }

  lemma {:induction false} KindsCount(s: Schema, names: seq<string>)
    requires s.Keywords?
    ensures |DescribedKinds(s, names)| == |names|
    decreases |names|
  {
    hide DescribedKind;
    if names != [] { KindsCount(s, names[1..]); }
  }

  lemma {:induction false} CleanAllUnionFree(variants: seq<Schema>)
    requires AllClean(DescribedAll(variants))
    ensures UnionFreeAll(variants)
    decreases variants, 0
  {
    hide Clean, Described, UnionFree;
    if variants != [] {
      AllCleanAppend([Described(variants[0])], DescribedAll(variants[1..]));
      CleanIsUnionFree(variants[0]);
      CleanAllUnionFree(variants[1..]);
    }
  }

  lemma {:induction false} CleanKindsUnionFree(s: Schema, names: seq<string>)
    requires s.Keywords? && AllClean(DescribedKinds(s, names))
    ensures UnionFreeKinds(s, names)
    decreases s, 1, |names|
  {
    hide Clean, DescribedKind, UnionFreeKind;
    if names != [] {
      AllCleanAppend([DescribedKind(s, Some(names[0]))], DescribedKinds(s, names[1..]));
      CleanKindUnionFree(s, Some(names[0]));
      CleanKindsUnionFree(s, names[1..]);
    }
  }

  lemma {:induction false} CleanKindUnionFree(s: Schema, kind: Option<string>)
    requires s.Keywords? && Clean(DescribedKind(s, kind))
    ensures UnionFreeKind(s, kind)
    decreases s, 0
  {
    hide Described, UnionFree, DescribedMembers, UnionFreeMembers;
    if kind.Some? && ScalarName(kind.value).Some? {
    } else if kind == Some("array") {
      if s.items.Some? { CleanIsUnionFree(s.items.value); }
    } else if ObjectKind(s, kind) {
      if GivenMembers(s.properties) {
        CleanMembersUnionFree(s.properties.list, s.required);
      } else if s.additional.Constrained? {
        CleanIsUnionFree(s.additional.schema);
      }
    }
  }

  ghost predicate FieldsClean(fields: seq<TreeField>) {
    forall i :: 0 <= i < |fields| ==> Clean(fields[i].content)
  }

  lemma {:induction false} CleanMembersUnionFree(members: seq<Member>, required: seq<string>)
    requires FieldsClean(DescribedMembers(members, required))
    ensures UnionFreeMembers(members)
    decreases members, 0
  {
    hide Clean, Described, UnionFree;
    if members != [] {
      var fields := DescribedMembers(members, required);
      assert Clean(fields[0].content);
      CleanIsUnionFree(members[0].schema);
      var rest := DescribedMembers(members[1..], required);
      assert forall i :: 0 <= i < |rest| ==> rest[i] == fields[i + 1];
      CleanMembersUnionFree(members[1..], required);
    }
  }

  /** The text reads as the tree the schema describes exactly when no multi-variant `allOf` has a
      variant whose text is a union. */
  lemma ParsesAsDescribedIffUnionFree(s: Schema)
    requires Render(s).Ok?
    ensures ParseType(Render(s).value).Some?
    ensures TreeOf(ParseType(Render(s).value).value.0) == Described(s) <==> UnionFree(s)
  {
    hide Clean, Shaped, Render, ParseType, Described, UnionFree, Denoted;
    TextParsesToDenoted(s);
    if UnionFree(s) {
      DescribedMatches(s);
    }
    if TreeOf(Denoted(s)) == Described(s) {
      DenotedShaped(s);
      TreeClean(Denoted(s));
      CleanIsUnionFree(s);
    }
  }
}
