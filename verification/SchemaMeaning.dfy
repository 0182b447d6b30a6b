/** Values valid under an OpenAPI schema, values of a generated type, and soundness of
    scripts/generate_frontend_contracts.py: no valid value is outside the generated type. */
module SchemaMeaning {
  import opened Results
  import opened TypeText
  import opened SchemaText

  type Definitions = map<string, Schema>
  type TypeNames = map<string, Type>

  // ----- which values a schema accepts (JSON Schema 2020-12), with references followed `k` times

  predicate HasKind(v: Json, kind: string) {
    match v
    case JNull => kind == "null"
    case JBool(_) => kind == "boolean"
    case JNum(n) => kind == "number" || (kind == "integer" && n == n.Floor as real)
    case JStr(_) => kind == "string"
    case JArr(_) => kind == "array"
    case JObj(_) => kind == "object"
  }

  predicate KindAllows(kind: Kind, v: Json) {
    match kind
    case AnyKind => true
    case OneKind(name) => HasKind(v, name)
    case ManyKinds(names) => exists n :: n in names && HasKind(v, n)
  }

  ghost predicate Valid(defs: Definitions, k: nat, s: Schema, v: Json)
    decreases k, s, 1
  {
    match s
    case Always(allows) => allows
    case Keywords(reference, constant, enumeration, oneOf, anyOf, allOf, kind, items, properties, additional, required) =>
      && (reference.Some? && reference.value.Local? ==>
            k > 0 && reference.value.name in defs && Valid(defs, k - 1, defs[reference.value.name], v))
      && (constant.Some? ==> v == constant.value)
      && (enumeration.Some? ==> v in enumeration.value)
      && (oneOf.Variants? ==>
            exists i :: (0 <= i < |oneOf.list| && Valid(defs, k, oneOf.list[i], v)
              && forall j :: 0 <= j < |oneOf.list| && j != i ==> !Valid(defs, k, oneOf.list[j], v)))
      && (anyOf.Variants? ==> exists i :: 0 <= i < |anyOf.list| && Valid(defs, k, anyOf.list[i], v))
      && (allOf.Variants? ==> forall i :: 0 <= i < |allOf.list| ==> Valid(defs, k, allOf.list[i], v))
      && KindAllows(kind, v)
      && ContentsValid(defs, k, s, v)
  }

  /** `items`, `properties`, `additionalProperties` and `required`. */
  ghost predicate ContentsValid(defs: Definitions, k: nat, s: Schema, v: Json)
    requires s.Keywords?
    decreases k, s, 0
  {
    && (v.JArr? && s.items.Some? ==> forall i :: 0 <= i < |v.items| ==> Valid(defs, k, s.items.value, v.items[i]))
    && (v.JObj? ==>
        && (forall name :: name in s.required ==> name in v.members)
        && (s.properties.Members? ==> forall i :: 0 <= i < |s.properties.list| ==>
              s.properties.list[i].name in v.members ==>
                Valid(defs, k, s.properties.list[i].schema, v.members[s.properties.list[i].name]))
        && (forall name :: name in v.members && !Declared(s.properties, name) ==>
              match s.additional
              case Unstated => true
              case Flag(allowed) => allowed
              case Constrained(values) => Valid(defs, k, values, v.members[name])))
  }

  predicate Declared(properties: Members, name: string) {
    properties.Members? && exists m :: m in properties.list && m.name == name
  }

  // ----- which values a type contains

  predicate NameContains(n: Name, v: Json) {
    match n
    case NullType => v.JNull?
    case StringType => v.JStr?
    case NumberType => v.JNum?
    case BooleanType => v.JBool?
    case JsonValueType => true
    case NeverType => false
    case Literal(value) => v == value
    case Reference(_) => false
  }

  ghost predicate Contains(names: TypeNames, k: nat, t: Type, v: Json)
    decreases k, t, 0
  {
    exists i :: 0 <= i < |t.alternatives| && ContainsAll(names, k, t.alternatives[i], v)
  }

  ghost predicate ContainsAll(names: TypeNames, k: nat, c: Conjunction, v: Json)
    decreases k, c, 0
  {
    forall i :: 0 <= i < |c.parts| ==> ContainsOne(names, k, c.parts[i], v)
  }

  ghost predicate ContainsOne(names: TypeNames, k: nat, p: Primary, v: Json)
    decreases k, p, 0
  {
    match p
    case Named(Reference(n)) => k > 0 && n in names && Contains(names, k - 1, names[n], v)
    case Named(n) => NameContains(n, v)
    case ArrayOf(e) => v.JArr? && forall i :: 0 <= i < |v.items| ==> Contains(names, k, e, v.items[i])
    case RecordOf(e) => v.JObj? && forall name :: name in v.members ==> Contains(names, k, e, v.members[name])
    case ObjectOf(fields) =>
      v.JObj? && forall i :: 0 <= i < |fields| ==> ContainsField(names, k, fields[i], v)
    case Group(t) => Contains(names, k, t, v)
  }

  /** TypeScript's structural rule: further members are allowed. */
  ghost predicate ContainsField(names: TypeNames, k: nat, f: Field, v: Json)
    requires v.JObj?
    decreases k, f, 0
  {
    if f.name in v.members then Contains(names, k, f.content, v.members[f.name]) else f.optional
  }

  // ----- named types

  /** The schema behind an exported type name (`SCHEMA_EXPORTS`). */
  function SchemaFor(exportName: string): string {
    if exportName == "Workspace" then "WorkspaceTransport" else exportName
  }

  /** A reference to schema `name` renders as the type exported for that very schema. */
  predicate Exported(exports: set<string>, name: string) {
    name != "Workspace" && ReferenceName(name) in exports
  }

  ghost predicate Linked(defs: Definitions, exports: set<string>, names: TypeNames) {
    forall e :: e in exports ==>
      && SchemaFor(e) in defs && e in names
      && names[e] == Denoted(defs[SchemaFor(e)])
      && Faithful(exports, defs[SchemaFor(e)])
  }

  /** What the generator needs of a schema: references to exported schemas, `properties` only on typed
      schemas, and object schemas without properties that state `additionalProperties`. */
  predicate Faithful(exports: set<string>, s: Schema)
    decreases s, 2
  {
    match s
    case Always(_) => true
    case Keywords(reference, constant, enumeration, oneOf, anyOf, allOf, kind, _, _, _, _) =>
      if reference.Some? then reference.value.Local? && Exported(exports, reference.value.name)
      else if constant.Some? || NonEmpty(enumeration) then true
      else if Given(oneOf) then FaithfulAll(exports, oneOf.list)
      else if Given(anyOf) then FaithfulAll(exports, anyOf.list)
      else if Given(allOf) then FaithfulAll(exports, allOf.list)
      else match kind
        case AnyKind => FaithfulKind(exports, s, None)
        case OneKind(name) => FaithfulKind(exports, s, Some(name))
        case ManyKinds(names) => FaithfulKinds(exports, s, names)
  }

  predicate FaithfulAll(exports: set<string>, variants: seq<Schema>)
    decreases variants, 0
  {
    variants == [] || (Faithful(exports, variants[0]) && FaithfulAll(exports, variants[1..]))
  }

  predicate FaithfulKinds(exports: set<string>, s: Schema, names: seq<string>)
    requires s.Keywords?
    decreases s, 1, |names|
  {
    names == [] || (FaithfulKind(exports, s, Some(names[0])) && FaithfulKinds(exports, s, names[1..]))
  }

  /** `type` present, and `additionalProperties` stated when there are no properties. */
  predicate ObjectStated(s: Schema, kind: Option<string>)
    requires s.Keywords?
  {
    kind.Some? && (GivenMembers(s.properties) || !s.additional.Unstated?)
  }

  predicate FaithfulKind(exports: set<string>, s: Schema, kind: Option<string>)
    requires s.Keywords?
    decreases s, 0
  {
    if kind.Some? && ScalarName(kind.value).Some? then true
    else if kind == Some("array") then s.items.Some? ==> Faithful(exports, s.items.value)
    else if ObjectKind(s, kind) then
      && ObjectStated(s, kind)
      && (if GivenMembers(s.properties) then FaithfulMembers(exports, s.properties.list)
          else s.additional.Constrained? ==> Faithful(exports, s.additional.schema))
    else true
  }

  predicate FaithfulMembers(exports: set<string>, members: seq<Member>)
    decreases members, 0
  {
    members == [] || (Faithful(exports, members[0].schema) && FaithfulMembers(exports, members[1..]))
  }

  // ----- joins contain what their operands contain

  lemma {:induction false} OrJoinContains(names: TypeNames, k: nat, types: seq<Type>, j: nat, v: Json)
    requires j < |types| && Contains(names, k, types[j], v)
    ensures Contains(names, k, OrJoin(types), v)
  {
    hide ContainsAll;
    var r := OrJoin(types).alternatives;
    if j == 0 {
      var i :| 0 <= i < |types[0].alternatives| && ContainsAll(names, k, types[0].alternatives[i], v);
      assert r[i] == types[0].alternatives[i];
    } else {
      OrJoinContains(names, k, types[1..], j - 1, v);
      var rest := OrJoin(types[1..]).alternatives;
      var i :| 0 <= i < |rest| && ContainsAll(names, k, rest[i], v);
      assert r[|types[0].alternatives| + i] == rest[i];
    }
  }

  lemma KeptContains(names: TypeNames, k: nat, types: seq<Type>, j: nat, v: Json)
    requires j < |types| && Contains(names, k, types[j], v)
    ensures Contains(names, k, OrJoin(Deduplicated(types)), v)
  {
    DeduplicatedMembers(types);
    assert types[j] in Deduplicated(types);
    var i :| 0 <= i < |Deduplicated(types)| && Deduplicated(types)[i] == types[j];
    OrJoinContains(names, k, Deduplicated(types), i, v);
  }

  /** Even when ` & ` splits a union, the text loses none of the common values. */
  lemma BindContains(names: TypeNames, k: nat, t: Type, u: Type, v: Json)
    requires Contains(names, k, t, v) && Contains(names, k, u, v)
    ensures Contains(names, k, Bind(t, u), v)
  {
    var i :| 0 <= i < |t.alternatives| && ContainsAll(names, k, t.alternatives[i], v);
    var j :| 0 <= j < |u.alternatives| && ContainsAll(names, k, u.alternatives[j], v);
    hide ContainsOne;
    var n, r := |t.alternatives| - 1, Bind(t, u).alternatives;
    if i < n {
      assert r[i] == t.alternatives[i];
    } else if j > 0 {
      assert r[n + j] == u.alternatives[j];
    } else {
      assert r[n] == Conjunction(t.alternatives[n].parts + u.alternatives[0].parts);
      assert ContainsAll(names, k, r[n], v);
    }
  }

  lemma {:induction false} AndJoinContains(names: TypeNames, k: nat, types: seq<Type>, v: Json)
    requires types != [] && forall t :: t in types ==> Contains(names, k, t, v)
    ensures Contains(names, k, AndJoin(types), v)
  {
    hide Contains;
    assert types[0] in types;
    if |types| > 1 {
      AndJoinContains(names, k, types[1..], v);
      BindContains(names, k, types[0], AndJoin(types[1..]), v);
    }
  }

  lemma SingleContains(names: TypeNames, k: nat, p: Primary, v: Json)
    ensures Contains(names, k, Single(p), v) <==> ContainsOne(names, k, p, v)
  {
    var c := Conjunction([p]);
    assert Single(p).alternatives == [c];
    assert ContainsAll(names, k, c, v) <==> ContainsOne(names, k, p, v) by {
      assert c.parts[0] == p;
    }
    assert Contains(names, k, Single(p), v) <==> ContainsAll(names, k, Single(p).alternatives[0], v);
  }

  lemma LiteralContains(names: TypeNames, k: nat, value: Json)
    ensures Contains(names, k, LiteralType(value), value)
  {
    SingleContains(names, k, Named(LiteralName(value)), value);
  }

  lemma {:induction false} LiteralTypesAt(values: seq<Json>, i: nat)
    requires i < |values|
    ensures |LiteralTypes(values)| == |values| && LiteralTypes(values)[i] == LiteralType(values[i])
  {
    if i > 0 { LiteralTypesAt(values[1..], i - 1); }
    if i == 0 && |values| > 1 { LiteralTypesAt(values[1..], 0); }
  }

  lemma {:induction false} DenotedAllAt(variants: seq<Schema>, i: nat)
    requires i < |variants|
    ensures |DenotedAll(variants)| == |variants| && DenotedAll(variants)[i] == Denoted(variants[i])
  {
    hide Denoted;
    if i > 0 { DenotedAllAt(variants[1..], i - 1); }
    if i == 0 && |variants| > 1 { DenotedAllAt(variants[1..], 0); }
  }

  lemma {:induction false} FaithfulAllAt(exports: set<string>, variants: seq<Schema>, i: nat)
    requires FaithfulAll(exports, variants) && i < |variants|
    ensures Faithful(exports, variants[i])
  {
    hide Faithful;
    if i > 0 { FaithfulAllAt(exports, variants[1..], i - 1); }
  }

  lemma {:induction false} DenotedKindsAt(s: Schema, kinds: seq<string>, i: nat)
    requires s.Keywords? && i < |kinds|
    ensures |DenotedKinds(s, kinds)| == |kinds| && DenotedKinds(s, kinds)[i] == DenotedKind(s, Some(kinds[i]))
    decreases |kinds|
  {
    hide DenotedKind;
    if |kinds| > 1 { DenotedKindsAt(s, kinds[1..], if i == 0 then 0 else i - 1); }
  }

  lemma {:induction false} KindsAt(exports: set<string>, s: Schema, names: seq<string>, i: nat)
    requires s.Keywords? && FaithfulKinds(exports, s, names) && i < |names|
    ensures FaithfulKind(exports, s, Some(names[i]))
    ensures |DenotedKinds(s, names)| == |names| && DenotedKinds(s, names)[i] == DenotedKind(s, Some(names[i]))
    decreases |names|
  {
    hide FaithfulKind, DenotedKind;
    DenotedKindsAt(s, names, i);
    if i > 0 { KindsAt(exports, s, names[1..], i - 1); }
  }

  lemma {:induction false} MembersAt(exports: set<string>, members: seq<Member>, required: seq<string>, i: nat)
    requires FaithfulMembers(exports, members) && i < |members|
    ensures Faithful(exports, members[i].schema)
    ensures |DenotedMembers(members, required)| == |members|
    ensures DenotedMembers(members, required)[i]
         == Field(members[i].name, members[i].name !in required, Denoted(members[i].schema))
  {
    hide Faithful, Denoted;
    if i > 0 { MembersAt(exports, members[1..], required, i - 1); }
    if i == 0 && |members| > 1 { MembersAt(exports, members[1..], required, 0); }
  }

  // ----- soundness

  /** Every value valid under the schema is in the type its generated text denotes, however `allOf` and
      `oneOf` are nested and however many references are followed. */
  lemma {:induction false} GeneratedTypeIsSound(defs: Definitions, exports: set<string>, names: TypeNames, k: nat, s: Schema, v: Json)
    requires Linked(defs, exports, names) && Faithful(exports, s)
    requires Valid(defs, k, s, v)
    ensures Contains(names, k, Denoted(s), v)
    decreases k, s, 2
  {
    hide Contains, ContainsOne, FaithfulAll, FaithfulKind, FaithfulKinds, ContentsValid, DenotedAll, DenotedKind,
      DenotedKinds, Deduplicated, OrJoin, AndJoin, Single, LiteralTypes;
    match s
    case Always(_) => SingleIsJson(names, k, v);
    case Keywords(reference, constant, enumeration, oneOf, anyOf, allOf, kind, _, _, _, _) =>
      if reference.Some? {
        var name := reference.value.name;
        assert SchemaFor(ReferenceName(name)) == name;
        GeneratedTypeIsSound(defs, exports, names, k - 1, defs[name], v);
        ReferenceContains(names, k, ReferenceName(name), v);
      } else if constant.Some? {
        LiteralContains(names, k, v);
      } else if NonEmpty(enumeration) {
        var i :| 0 <= i < |enumeration.value| && enumeration.value[i] == v;
        LiteralTypesAt(enumeration.value, i);
        LiteralContains(names, k, v);
        KeptContains(names, k, LiteralTypes(enumeration.value), i, v);
      } else if Given(oneOf) {
        var i :| 0 <= i < |oneOf.list| && Valid(defs, k, oneOf.list[i], v);
        VariantSound(defs, exports, names, k, oneOf.list, i, v);
        KeptContains(names, k, DenotedAll(oneOf.list), i, v);
      } else if Given(anyOf) {
        var i :| 0 <= i < |anyOf.list| && Valid(defs, k, anyOf.list[i], v);
        VariantSound(defs, exports, names, k, anyOf.list, i, v);
        KeptContains(names, k, DenotedAll(anyOf.list), i, v);
      } else if Given(allOf) {
        var types := DenotedAll(allOf.list);
        DenotedAllAt(allOf.list, 0);
        forall t | t in types ensures Contains(names, k, t, v) {
          var i :| 0 <= i < |types| && types[i] == t;
          VariantSound(defs, exports, names, k, allOf.list, i, v);
        }
        DeduplicatedMembers(types);
        assert types[0] in Deduplicated(types);
        AndJoinContains(names, k, Deduplicated(types), v);
      } else {
        match kind
        case AnyKind => KindSound(defs, exports, names, k, s, None, v);
        case OneKind(name) => KindSound(defs, exports, names, k, s, Some(name), v);
        case ManyKinds(kinds) =>
          var n :| n in kinds && HasKind(v, n);
          var i :| 0 <= i < |kinds| && kinds[i] == n;
          KindsAt(exports, s, kinds, i);
          KindSound(defs, exports, names, k, s, Some(n), v);
          KeptContains(names, k, DenotedKinds(s, kinds), i, v);
      }
  }

  lemma SingleIsJson(names: TypeNames, k: nat, v: Json)
    ensures Contains(names, k, Single(Named(JsonValueType)), v)
  {
    SingleContains(names, k, Named(JsonValueType), v);
  }

  lemma ReferenceContains(names: TypeNames, k: nat, n: string, v: Json)
    requires k > 0 && n in names && Contains(names, k - 1, names[n], v)
    ensures Contains(names, k, Single(Named(Reference(n))), v)
  {
    SingleContains(names, k, Named(Reference(n)), v);
  }

  lemma {:induction false} VariantSound(defs: Definitions, exports: set<string>, names: TypeNames, k: nat, variants: seq<Schema>, i: nat, v: Json)
    requires Linked(defs, exports, names) && FaithfulAll(exports, variants)
    requires i < |variants| && Valid(defs, k, variants[i], v)
    ensures i < |DenotedAll(variants)| && Contains(names, k, DenotedAll(variants)[i], v)
    decreases k, variants, 0
  {
    hide Contains, FaithfulAll, Faithful, Valid, DenotedAll, Denoted;
    FaithfulAllAt(exports, variants, i);
    DenotedAllAt(variants, i);
    GeneratedTypeIsSound(defs, exports, names, k, variants[i], v);
  }

  lemma {:induction false} KindSound(defs: Definitions, exports: set<string>, names: TypeNames, k: nat, s: Schema, kind: Option<string>, v: Json)
    requires s.Keywords? && Linked(defs, exports, names) && FaithfulKind(exports, s, kind)
    requires (kind.Some? ==> HasKind(v, kind.value)) && ContentsValid(defs, k, s, v)
    ensures Contains(names, k, DenotedKind(s, kind), v)
    decreases k, s, 1
  {
    hide Contains, Faithful, Valid, Denoted, Single, FaithfulMembers;
    SingleIsJson(names, k, v);
    if kind.Some? && ScalarName(kind.value).Some? {
      SingleContains(names, k, Named(ScalarName(kind.value).value), v);
    } else if kind == Some("array") {
      ItemsSound(defs, exports, names, k, s, v);
    } else if ObjectKind(s, kind) {
      if kind == Some("object") { ObjectSound(defs, exports, names, k, s, kind, v); }
    }
  }

  lemma {:induction false} ItemsSound(defs: Definitions, exports: set<string>, names: TypeNames, k: nat, s: Schema, v: Json)
    requires s.Keywords? && Linked(defs, exports, names) && FaithfulKind(exports, s, Some("array"))
    requires v.JArr? && ContentsValid(defs, k, s, v)
    ensures Contains(names, k, DenotedKind(s, Some("array")), v)
    decreases k, s, 0
  {
    hide Contains, Faithful, Valid, Denoted, Single;
    var element := if s.items.Some? then Denoted(s.items.value) else Single(Named(JsonValueType));
    forall i | 0 <= i < |v.items| ensures Contains(names, k, element, v.items[i]) {
      if s.items.Some? {
        GeneratedTypeIsSound(defs, exports, names, k, s.items.value, v.items[i]);
      } else {
        SingleIsJson(names, k, v.items[i]);
      }
    }
    SingleContains(names, k, ArrayOf(element), v);
  }

  lemma {:induction false} ObjectSound(defs: Definitions, exports: set<string>, names: TypeNames, k: nat, s: Schema, kind: Option<string>, v: Json)
    requires s.Keywords? && kind == Some("object")
    requires Linked(defs, exports, names) && FaithfulKind(exports, s, kind)
    requires v.JObj? && ContentsValid(defs, k, s, v)
    ensures Contains(names, k, DenotedKind(s, kind), v)
    decreases k, s, 0
  {
    hide Contains, Faithful, Valid, Denoted, Single, FaithfulMembers, DenotedMembers;
    if GivenMembers(s.properties) {
      var members := s.properties.list;
      var fields := DenotedMembers(members, s.required);
      MembersAt(exports, members, s.required, 0);
      forall i | 0 <= i < |fields| ensures ContainsField(names, k, fields[i], v) {
        MembersAt(exports, members, s.required, i);
        if members[i].name in v.members {
          GeneratedTypeIsSound(defs, exports, names, k, members[i].schema, v.members[members[i].name]);
        }
      }
      SingleContains(names, k, ObjectOf(fields), v);
    } else {
      var element := match s.additional
        case Flag(true) => Single(Named(JsonValueType))
        case Constrained(values) => Denoted(values)
        case _ => Single(Named(NeverType));
      forall name | name in v.members ensures Contains(names, k, element, v.members[name]) {
        match s.additional
        case Flag(_) => SingleIsJson(names, k, v.members[name]);
        case Constrained(values) =>
          GeneratedTypeIsSound(defs, exports, names, k, values, v.members[name]);
      }
      SingleContains(names, k, RecordOf(element), v);
    }
  }

  // ----- each part of the condition is needed

  predicate StandardKind(name: string) {
    name == "object" || name == "array" || ScalarName(name).Some?
  }

  /** A schema that reaches the object branch of the generator without combinators: untyped, typed as an
      object, or with a list of types that names it. */
  predicate AtObject(s: Schema) {
    && s.Keywords? && s.reference.None? && s.constant.None? && s.enumeration.None?
    && s.oneOf.NoVariants? && s.anyOf.NoVariants? && s.allOf.NoVariants?
    && ObjectKind(s, KindOf(s.kind))
    && match s.kind
       case AnyKind => true
       case OneKind(name) => name == "object"
       case ManyKinds(names) => "object" in names && forall n :: n in names ==> StandardKind(n)
  }

  /** The type with which the object branch is reached. */
  function KindOf(kind: Kind): Option<string> {
    match kind
    case AnyKind => None
    case OneKind(name) => Some(name)
    case ManyKinds(_) => Some("object")
  }

  lemma UntypedObjectTooNarrow(defs: Definitions, names: TypeNames, k: nat, s: Schema)
    requires AtObject(s) && s.kind == AnyKind
    ensures Valid(defs, k, s, JStr("")) && !Contains(names, k, Denoted(s), JStr(""))
  {
    assert KindAllows(s.kind, JStr(""));
    if GivenMembers(s.properties) {
      SingleContains(names, k, ObjectOf(DenotedMembers(s.properties.list, s.required)), JStr(""));
    } else {
      match s.additional
      case Flag(true) => SingleContains(names, k, RecordOf(Single(Named(JsonValueType))), JStr(""));
      case Constrained(values) => SingleContains(names, k, RecordOf(Denoted(values)), JStr(""));
      case _ => SingleContains(names, k, RecordOf(Single(Named(NeverType))), JStr(""));
    }
  }

  lemma {:induction false} OrJoinContainsOnly(names: TypeNames, k: nat, types: seq<Type>, v: Json) returns (j: nat)
    requires Contains(names, k, OrJoin(types), v)
    ensures j < |types| && Contains(names, k, types[j], v)
  {
    var all := OrJoin(types).alternatives;
    var i :| 0 <= i < |all| && ContainsAll(names, k, all[i], v);
    hide ContainsAll;
    var first := types[0].alternatives;
    if i < |first| {
      assert ContainsAll(names, k, first[i], v);
      j := 0;
    } else {
      var rest := OrJoin(types[1..]).alternatives;
      assert all == first + rest && rest[i - |first|] == all[i];
      var next := OrJoinContainsOnly(names, k, types[1..], v);
      j := next + 1;
    }
  }

  /** With no properties and no `additionalProperties`, no standard type contains an object with a member. */
  lemma KindMissesMember(names: TypeNames, k: nat, s: Schema, kind: string, v: Json)
    requires s.Keywords? && StandardKind(kind) && !GivenMembers(s.properties) && s.additional.Unstated?
    requires v.JObj? && "extra" in v.members
    ensures !Contains(names, k, DenotedKind(s, Some(kind)), v)
  {
    hide Denoted;
    if ScalarName(kind).Some? {
      SingleContains(names, k, Named(ScalarName(kind).value), v);
    } else if kind == "array" {
      SingleContains(names, k, ArrayOf(if s.items.Some? then Denoted(s.items.value) else Single(Named(JsonValueType))), v);
    } else {
      var never := Single(Named(NeverType));
      SingleContains(names, k, RecordOf(never), v);
      SingleContains(names, k, Named(NeverType), v.members["extra"]);
      assert !Contains(names, k, never, v.members["extra"]);
    }
  }

  lemma UnstatedObjectTooNarrow(defs: Definitions, names: TypeNames, k: nat, s: Schema)
    requires AtObject(s) && s.kind != AnyKind && !GivenMembers(s.properties) && s.additional.Unstated?
    ensures exists v :: Valid(defs, k, s, v) && !Contains(names, k, Denoted(s), v)
  {
    var v := JObj((map name | name in s.required :: JNull)["extra" := JNull]);
    assert HasKind(v, "object") && KindAllows(s.kind, v);
    assert ContentsValid(defs, k, s, v);
    assert Valid(defs, k, s, v);
    hide Valid, ContentsValid, DenotedKind, Contains, Deduplicated, DenotedKinds;
    match s.kind
    case OneKind(name) => KindMissesMember(names, k, s, name, v);
    case ManyKinds(kinds) =>
      if Contains(names, k, Denoted(s), v) {
        var types := DenotedKinds(s, kinds);
        var j := OrJoinContainsOnly(names, k, Deduplicated(types), v);
        DeduplicatedMembers(types);
        DenotedKindsAt(s, kinds, 0);
        var kept := Deduplicated(types)[j];
        assert kept in Deduplicated(types) && kept in types;
        var i :| 0 <= i < |types| && types[i] == kept;
        DenotedKindsAt(s, kinds, i);
        KindMissesMember(names, k, s, kinds[i], v);
      }
  }

  /** The subschemas that decide about members and items are sound on their own. */
  predicate PartsFaithful(exports: set<string>, s: Schema)
    requires s.Keywords?
  {
    && (GivenMembers(s.properties) ==> FaithfulMembers(exports, s.properties.list))
    && (s.additional.Constrained? ==> Faithful(exports, s.additional.schema))
    && (s.kind.ManyKinds? && "array" in s.kind.names && s.items.Some? ==> Faithful(exports, s.items.value))
  }

  lemma {:induction false} StatedKindsFaithful(exports: set<string>, s: Schema, kinds: seq<string>)
    requires s.Keywords? && s.kind.ManyKinds? && PartsFaithful(exports, s) && ObjectStated(s, Some("object"))
    requires forall n :: n in kinds ==> StandardKind(n) && n in s.kind.names
    ensures FaithfulKinds(exports, s, kinds)
    decreases |kinds|
  {
    hide Faithful, FaithfulMembers;
    if kinds != [] {
      assert kinds[0] in kinds && StandardKind(kinds[0]);
      StatedKindsFaithful(exports, s, kinds[1..]);
    }
  }

  /** At the object branch the generated type is sound exactly when the schema is typed and, lacking
      properties, states `additionalProperties`. */
  lemma ObjectSoundIffStated(defs: Definitions, exports: set<string>, names: TypeNames, k: nat, s: Schema)
    requires AtObject(s) && Linked(defs, exports, names) && PartsFaithful(exports, s)
    ensures (forall v :: Valid(defs, k, s, v) ==> Contains(names, k, Denoted(s), v)) <==> ObjectStated(s, KindOf(s.kind))
  {
    if ObjectStated(s, KindOf(s.kind)) {
      assert Faithful(exports, s) by { StatedIsFaithful(exports, s); }
      forall v | Valid(defs, k, s, v) ensures Contains(names, k, Denoted(s), v) {
        GeneratedTypeIsSound(defs, exports, names, k, s, v);
      }
    } else if s.kind == AnyKind {
      UntypedObjectTooNarrow(defs, names, k, s);
    } else {
      UnstatedObjectTooNarrow(defs, names, k, s);
    }
  }

  lemma StatedIsFaithful(exports: set<string>, s: Schema)
    requires AtObject(s) && PartsFaithful(exports, s) && ObjectStated(s, KindOf(s.kind))
    ensures Faithful(exports, s)
  {
    assert ScalarName("object").None?;
    match s.kind
    case OneKind(_) => assert FaithfulKind(exports, s, Some("object"));
    case ManyKinds(kinds) => StatedKindsFaithful(exports, s, kinds);
  }

  const UNCONSTRAINED := Keywords(None, None, None, NoVariants, NoVariants, NoVariants, AnyKind, None, NoMembers, Unstated, [])

  /** `{"$ref": "#/components/schemas/<name>"}` */
  function Ref(name: string): Schema { UNCONSTRAINED.(reference := Some(Local(name))) }

  function Typed(kind: string): Schema { UNCONSTRAINED.(kind := OneKind(kind)) }

  /** A reference to the schema `Workspace` renders as the type exported from `WorkspaceTransport`: it
      loses every value that only the former accepts. */
  lemma WorkspaceReferenceMeansTransport(defs: Definitions, names: TypeNames, k: nat, v: Json)
    requires "Workspace" in defs && "WorkspaceTransport" in defs && "Workspace" in names
    requires names["Workspace"] == Denoted(defs["WorkspaceTransport"])
    requires Valid(defs, k, defs["Workspace"], v) && !Contains(names, k, Denoted(defs["WorkspaceTransport"]), v)
    ensures Valid(defs, k + 1, Ref("Workspace"), v) && !Contains(names, k + 1, Denoted(Ref("Workspace")), v)
  {
    SingleContains(names, k + 1, Named(Reference("Workspace")), v);
  }

  /** Definitions in which every exported schema accepts null alone, and `Workspace` strings alone. */
  function NullDefinitions(exports: set<string>): Definitions {
    (map name | name in Targets(exports) :: Typed("null"))["Workspace" := Typed("string")]
  }

  function Targets(exports: set<string>): set<string> { set e | e in exports :: SchemaFor(e) }

  function NullTypes(exports: set<string>): TypeNames { map e | e in exports :: Denoted(Typed("null")) }

  /** The input: with these definitions the text "" is valid under a reference to `Workspace` and outside
      the rendered type. */
  lemma WorkspaceReferenceLosesText(exports: set<string>)
    requires "Workspace" in exports
    ensures Linked(NullDefinitions(exports), exports, NullTypes(exports))
    ensures Valid(NullDefinitions(exports), 1, Ref("Workspace"), JStr(""))
    ensures !Contains(NullTypes(exports), 1, Denoted(Ref("Workspace")), JStr(""))
  {
    var defs, names := NullDefinitions(exports), NullTypes(exports);
    forall e | e in exports ensures SchemaFor(e) in defs && defs[SchemaFor(e)] == Typed("null") {
      assert SchemaFor(e) in Targets(exports) && SchemaFor(e) != "Workspace";
    }
    assert Faithful(exports, Typed("null"));
    TypedMeans("null", defs, names);
    TypedMeans("string", defs, names);
    hide Valid, Contains, Denoted;
    assert SchemaFor("Workspace") == "WorkspaceTransport";
    WorkspaceReferenceMeansTransport(defs, names, 0, JStr(""));
  }

  lemma TypedMeans(kind: string, defs: Definitions, names: TypeNames)
    requires kind == "null" || kind == "string"
    ensures Valid(defs, 0, Typed(kind), JStr("")) <==> kind == "string"
    ensures Contains(names, 0, Denoted(Typed(kind)), JStr("")) <==> kind == "string"
  {
    SingleContains(names, 0, Named(ScalarName(kind).value), JStr(""));
  }

  /** The rendered type of a reference contains every value valid under it. */
  ghost predicate ReferenceSound(exports: set<string>, name: string) {
    forall defs, names, k: nat, v | Linked(defs, exports, names) && Valid(defs, k, Ref(name), v) ::
      Contains(names, k, Denoted(Ref(name)), v)
  }

  /** A reference with an exported name is sound, whatever the schemas, exactly when it is not `Workspace`. */
  lemma ReferenceSoundIffNotWorkspace(exports: set<string>, name: string)
    requires ReferenceName(name) in exports
    ensures ReferenceSound(exports, name) <==> name != "Workspace"
  {
    if name == "Workspace" {
      WorkspaceReferenceLosesText(exports);
    } else {
      assert Faithful(exports, Ref(name));
      forall defs, names, k: nat, v | Linked(defs, exports, names) && Valid(defs, k, Ref(name), v)
        ensures Contains(names, k, Denoted(Ref(name)), v)
      {
        GeneratedTypeIsSound(defs, exports, names, k, Ref(name), v);
      }
    }
  }

  function AnyOf(variants: seq<Schema>): Schema { UNCONSTRAINED.(anyOf := Variants(variants)) }

  function AllOf(variants: seq<Schema>): Schema { UNCONSTRAINED.(allOf := Variants(variants)) }

  /** Misread text only widens a type: for `allOf` of `a` and (`b` or `c`) the text `A & B | C` also
      contains every value of `c`, valid under `a` or not. */
  lemma MisreadIntersectionIsWider(defs: Definitions, names: TypeNames, k: nat, a: Schema, b: Schema, c: Schema, v: Json)
    requires |Denoted(b).alternatives| == |Denoted(c).alternatives| == 1 && Denoted(b) != Denoted(c)
    requires Contains(names, k, Denoted(c), v) && !Valid(defs, k, a, v)
    requires |Denoted(a).alternatives| == 1
    ensures Contains(names, k, Denoted(AllOf([a, AnyOf([b, c])])), v)
    ensures !Valid(defs, k, AllOf([a, AnyOf([b, c])]), v)
  {
    var either := AnyOf([b, c]);
    var s := AllOf([a, either]);
    assert s.allOf.list[0] == a;
    EitherDenoted(b, c);
    DenotedPair(a, either);
    hide Denoted, Valid, OrJoin, ContainsAll;
    DistinctPair(Denoted(a), Denoted(either));
    var first, two := Denoted(a), Denoted(either);
    AndJoinPair(first, two);
    AllOfDenoted([a, either]);
    assert Denoted(s).alternatives[1] == Denoted(c).alternatives[0];
  }

  lemma EitherDenoted(b: Schema, c: Schema)
    requires Denoted(b) != Denoted(c)
    ensures Denoted(AnyOf([b, c])).alternatives == Denoted(b).alternatives + Denoted(c).alternatives
  {
    hide OrJoin;
    DenotedPair(b, c);
    DistinctPair(Denoted(b), Denoted(c));
    OrJoinPair(Denoted(b), Denoted(c));
  }

  lemma AllOfDenoted(variants: seq<Schema>)
    requires variants != []
    ensures Denoted(AllOf(variants)) == AndJoin(Deduplicated(DenotedAll(variants)))
  {}

  lemma AndJoinPair(t: Type, u: Type)
    ensures AndJoin([t, u]) == Bind(t, u)
  {
    assert [t, u][1..] == [u];
  }

  lemma OrJoinPair(t: Type, u: Type)
    ensures OrJoin([t, u]).alternatives == t.alternatives + u.alternatives
  {
    assert [t, u][1..] == [u] && [u][1..] == [];
    assert OrJoin([u]).alternatives == u.alternatives;
  }

  lemma DenotedPair(s: Schema, t: Schema)
    ensures DenotedAll([s, t]) == [Denoted(s), Denoted(t)]
  {
    hide Denoted;
    assert [s, t][1..] == [t] && [t][1..] == [];
    assert DenotedAll([t]) == [Denoted(t)];
  }

  lemma DistinctPair(t: Type, u: Type)
    requires t != u
    ensures Deduplicated([t, u]) == [t, u]
  {
    assert [t, u][..1] == [t] && [t][..0] == [];
    assert Deduplicated([t]) == [t];
  }
}
