/** The fragment of TypeScript type syntax the contract generator emits
    (scripts/generate_frontend_contracts.py): types, their text as tokens, and a parser with
    TypeScript's precedence, `[]` over `&` over `|`. */
module TypeText {
  import opened Results

  datatype Name =
    | NullType
    | StringType
    | NumberType
    | BooleanType
    | JsonValueType
    | NeverType
    | Literal(value: Json)
    | Reference(name: string)

  /** A type as the parser sees it: alternatives of intersections of primary types. */
  datatype Type = Type(alternatives: seq<Conjunction>)
  datatype Conjunction = Conjunction(parts: seq<Primary>)
  datatype Primary =
    | Named(name: Name)
    | ArrayOf(element: Type)
    | RecordOf(element: Type)
    | ObjectOf(fields: seq<Field>)
    | Group(inner: Type)
  datatype Field = Field(name: string, optional: bool, content: Type)

  datatype Token =
    | Word(word: Name)
    | Bar
    | Amp
    | LParen
    | RParen
    | Brackets
    | RecordOpen
    | RecordClose
    | LBrace
    | RBrace
    | Property(name: string, optional: bool)
    | Semicolon

  // ----- text

  predicate MentionsOperator(s: string) {
    exists i :: 0 <= i && i + 3 <= |s| && OperatorAt(s, i)
  }

  predicate OperatorAt(s: string, i: nat)
    requires i + 3 <= |s|
  {
    s[i..i + 3] == " | " || s[i..i + 3] == " & "
  }

  /** `" | " in item_type or " & " in item_type`: at any depth, and also inside quoted text. */
  predicate NeedsParentheses(text: seq<Token>) {
    exists t :: t in text && TokenMentionsOperator(t)
  }

  predicate TokenMentionsOperator(t: Token) {
    match t
    case Bar => true
    case Amp => true
    case Word(Literal(JStr(s))) => MentionsOperator(s)
    case Word(Reference(n)) => MentionsOperator(n)
    case Property(n, _) => MentionsOperator(n)
    case _ => false
  }

  function ArrayText(element: seq<Token>): seq<Token> {
    (if NeedsParentheses(element) then [LParen] + element + [RParen] else element) + [Brackets]
  }

  function Print(t: Type): seq<Token> {
    PrintAlternatives(t.alternatives)
  }

  function PrintAlternatives(alternatives: seq<Conjunction>): seq<Token> {
    if alternatives == [] then []
    else if |alternatives| == 1 then PrintParts(alternatives[0].parts)
    else PrintParts(alternatives[0].parts) + [Bar] + PrintAlternatives(alternatives[1..])
  }

  function PrintParts(parts: seq<Primary>): seq<Token> {
    if parts == [] then []
    else if |parts| == 1 then PrintPrimary(parts[0])
    else PrintPrimary(parts[0]) + [Amp] + PrintParts(parts[1..])
  }

  function PrintPrimary(p: Primary): seq<Token> {
    match p
    case Named(n) => [Word(n)]
    case ArrayOf(e) => ArrayText(Print(e))
    case RecordOf(e) => [RecordOpen] + Print(e) + [RecordClose]
    case ObjectOf(fields) => [LBrace] + PrintFields(fields) + [RBrace]
    case Group(t) => [LParen] + Print(t) + [RParen]
  }

  function PrintFields(fields: seq<Field>): seq<Token> {
    if fields == [] then []
    else [Property(fields[0].name, fields[0].optional)] + Print(fields[0].content) + [Semicolon] + PrintFields(fields[1..])
  }

  // ----- shape

  /** No empty union or intersection and no redundant parentheses, at any depth. */
  predicate Shaped(t: Type) {
    t.alternatives != [] && forall i :: 0 <= i < |t.alternatives| ==> ShapedConjunction(t.alternatives[i])
  }

  predicate ShapedConjunction(c: Conjunction) {
    c.parts != [] && forall i :: 0 <= i < |c.parts| ==> ShapedPrimary(c.parts[i])
  }

  predicate ShapedPrimary(p: Primary) {
    match p
    case Named(_) => true
    case ArrayOf(e) => Shaped(e)
    case RecordOf(e) => Shaped(e)
    case ObjectOf(fields) => forall i :: 0 <= i < |fields| ==> Shaped(fields[i].content)
    case Group(_) => false
  }

  // ----- parsing

  type Text = seq<Token>

  datatype Base = Plain(primary: Primary) | Parenthesized(inner: Type)

  function ParseType(text: Text): (r: Option<(Type, Text)>)
    ensures r.Some? ==> |r.value.1| < |text|
    decreases |text|, 3
  {
    match ParseConjunction(text)
    case None => None
    case Some((c, rest)) =>
      if rest != [] && rest[0] == Bar then
        match ParseType(rest[1..])
        case None => None
        case Some((t, rest')) => Some((Type([c] + t.alternatives), rest'))
      else Some((Type([c]), rest))
  }

  function ParseConjunction(text: Text): (r: Option<(Conjunction, Text)>)
    ensures r.Some? ==> |r.value.1| < |text|
    decreases |text|, 2
  {
    match ParsePostfix(text)
    case None => None
    case Some((p, rest)) =>
      if rest != [] && rest[0] == Amp then
        match ParseConjunction(rest[1..])
        case None => None
        case Some((c, rest')) => Some((Conjunction([p] + c.parts), rest'))
      else Some((Conjunction([p]), rest))
  }

  function ParsePostfix(text: Text): (r: Option<(Primary, Text)>)
    ensures r.Some? ==> |r.value.1| < |text|
    decreases |text|, 1
  {
    match ParseBase(text)
    case None => None
    case Some((b, rest)) => Some(Suffixes(b, rest))
  }

  /** Every `[]` that follows makes an array of what stands before it. */
  function Suffixes(b: Base, text: Text): (r: (Primary, Text))
    ensures |r.1| <= |text|
    decreases |text|
  {
    if text != [] && text[0] == Brackets then
      var element := match b case Plain(p) => Type([Conjunction([p])]) case Parenthesized(t) => t;
      Suffixes(Plain(ArrayOf(element)), text[1..])
    else
      (match b case Plain(p) => p case Parenthesized(t) => Group(t), text)
  }

  function ParseBase(text: Text): (r: Option<(Base, Text)>)
    ensures r.Some? ==> |r.value.1| < |text|
    decreases |text|, 0
  {
    if text == [] then None
    else match text[0]
      case Word(n) => Some((Plain(Named(n)), text[1..]))
      case LParen =>
        (match ParseType(text[1..])
         case Some((t, rest)) =>
           if rest != [] && rest[0] == RParen then Some((Parenthesized(t), rest[1..])) else None
         case None => None)
      case RecordOpen =>
        (match ParseType(text[1..])
         case Some((t, rest)) =>
           if rest != [] && rest[0] == RecordClose then Some((Plain(RecordOf(t)), rest[1..])) else None
         case None => None)
      case LBrace =>
        (match ParseFields(text[1..])
         case Some((fields, rest)) => Some((Plain(ObjectOf(fields)), rest))
         case None => None)
      case _ => None
  }

  function ParseFields(text: Text): (r: Option<(seq<Field>, Text)>)
    ensures r.Some? ==> |r.value.1| < |text|
    decreases |text|, 4
  {
    if text == [] then None
    else match text[0]
      case RBrace => Some(([], text[1..]))
      case Property(name, optional) =>
        (match ParseType(text[1..])
         case Some((t, rest)) =>
           if rest != [] && rest[0] == Semicolon then
             match ParseFields(rest[1..])
             case Some((fields, rest')) => Some(([Field(name, optional, t)] + fields, rest'))
             case None => None
           else None
         case None => None)
      case _ => None
  }

  // ----- printing then parsing

  predicate StopsType(rest: Text) {
    rest == [] || (rest[0] != Bar && rest[0] != Amp && rest[0] != Brackets)
  }

  predicate StopsConjunction(rest: Text) {
    rest == [] || (rest[0] != Amp && rest[0] != Brackets)
  }

  lemma {:induction false} ParsePrintedType(t: Type, rest: Text)
    requires Shaped(t) && StopsType(rest)
    ensures ParseType(Print(t) + rest) == Some((t, rest))
    decreases t, 1
  {
    ParsePrintedAlternatives(t.alternatives, rest);
  }

  lemma {:induction false} ParsePrintedAlternatives(alternatives: seq<Conjunction>, rest: Text)
    requires Shaped(Type(alternatives)) && StopsType(rest)
    ensures ParseType(PrintAlternatives(alternatives) + rest) == Some((Type(alternatives), rest))
    decreases alternatives, 0
  {
    hide ParseType, ParseConjunction;
    var first := alternatives[0];
    assert ShapedConjunction(first) && first == Conjunction(first.parts);
    if |alternatives| == 1 {
      ParsePrintedParts(first.parts, rest);
      LastAlternative(PrintParts(first.parts) + rest, first, rest);
      assert alternatives == [first];
    } else {
      var more := PrintAlternatives(alternatives[1..]) + rest;
      ParsePrintedParts(first.parts, [Bar] + more);
      ParsePrintedAlternatives(alternatives[1..], rest);
      NextAlternative(PrintParts(first.parts) + ([Bar] + more), first, more, alternatives[1..], rest);
      assert PrintAlternatives(alternatives) + rest == PrintParts(first.parts) + ([Bar] + more);
      assert alternatives == [first] + alternatives[1..];
    }
  }

  lemma LastAlternative(text: Text, c: Conjunction, rest: Text)
    requires ParseConjunction(text) == Some((c, rest)) && StopsType(rest)
    ensures ParseType(text) == Some((Type([c]), rest))
  {}

  lemma NextAlternative(text: Text, c: Conjunction, more: Text, alternatives: seq<Conjunction>, rest: Text)
    requires ParseConjunction(text) == Some((c, [Bar] + more))
    requires ParseType(more) == Some((Type(alternatives), rest))
    ensures ParseType(text) == Some((Type([c] + alternatives), rest))
  {
    assert ([Bar] + more)[1..] == more;
  }

  lemma {:induction false} ParsePrintedParts(parts: seq<Primary>, rest: Text)
    requires ShapedConjunction(Conjunction(parts)) && StopsConjunction(rest)
    ensures ParseConjunction(PrintParts(parts) + rest) == Some((Conjunction(parts), rest))
    decreases parts, 0
  {
    hide ParseConjunction, ParsePostfix;
    assert ShapedPrimary(parts[0]);
    if |parts| == 1 {
      ParsePrintedPrimary(parts[0], rest);
      LastPart(PrintPrimary(parts[0]) + rest, parts[0], rest);
      assert parts == [parts[0]];
    } else {
      var more := PrintParts(parts[1..]) + rest;
      ParsePrintedPrimary(parts[0], [Amp] + more);
      ParsePrintedParts(parts[1..], rest);
      NextPart(PrintPrimary(parts[0]) + ([Amp] + more), parts[0], more, parts[1..], rest);
      assert PrintParts(parts) + rest == PrintPrimary(parts[0]) + ([Amp] + more);
      assert parts == [parts[0]] + parts[1..];
    }
  }

  lemma LastPart(text: Text, p: Primary, rest: Text)
    requires ParsePostfix(text) == Some(Suffixes(Plain(p), rest)) && StopsConjunction(rest)
    ensures ParseConjunction(text) == Some((Conjunction([p]), rest))
  {}

  lemma NextPart(text: Text, p: Primary, more: Text, parts: seq<Primary>, rest: Text)
    requires ParsePostfix(text) == Some(Suffixes(Plain(p), [Amp] + more))
    requires ParseConjunction(more) == Some((Conjunction(parts), rest))
    ensures ParseConjunction(text) == Some((Conjunction([p] + parts), rest))
  {
    assert ([Amp] + more)[1..] == more;
  }

  /** A printed primary type reads as itself, ready for the suffixes in `rest`. */
  lemma {:induction false} ParsePrintedPrimary(p: Primary, rest: Text)
    requires ShapedPrimary(p)
    ensures ParsePostfix(PrintPrimary(p) + rest) == Some(Suffixes(Plain(p), rest))
    decreases p, 0
  {
    hide ParseType, ParseBase, ParsePostfix, ParseFields, Suffixes, NeedsParentheses;
    match p
    case Named(n) =>
      ReadWord(n, rest);
    case RecordOf(e) =>
      ParsePrintedType(e, [RecordClose] + rest);
      ReadRecord(e, Print(e) + ([RecordClose] + rest), rest);
      assert PrintPrimary(p) + rest == [RecordOpen] + (Print(e) + ([RecordClose] + rest));
    case ObjectOf(fields) =>
      ParsePrintedFields(fields, rest);
      ReadObject(fields, PrintFields(fields) + ([RBrace] + rest), rest);
      assert PrintPrimary(p) + rest == [LBrace] + (PrintFields(fields) + ([RBrace] + rest));
    case ArrayOf(e) =>
      if NeedsParentheses(Print(e)) {
        var more := [Brackets] + rest;
        ParsePrintedType(e, [RParen] + more);
        ReadParentheses(e, Print(e) + ([RParen] + more), more);
        assert PrintPrimary(p) + rest == [LParen] + (Print(e) + ([RParen] + more));
        SuffixBrackets(Parenthesized(e), e, rest);
      } else {
        SinglePrimary(e);
        var q := e.alternatives[0].parts[0];
        ParsePrintedPrimary(q, [Brackets] + rest);
        assert PrintPrimary(p) + rest == PrintPrimary(q) + ([Brackets] + rest);
        SuffixBrackets(Plain(q), e, rest);
      }
  }

  lemma SuffixBrackets(b: Base, element: Type, rest: Text)
    requires element == match b case Plain(p) => Type([Conjunction([p])]) case Parenthesized(t) => t
    ensures Suffixes(b, [Brackets] + rest) == Suffixes(Plain(ArrayOf(element)), rest)
  {
    assert ([Brackets] + rest)[1..] == rest;
  }

  lemma ReadWord(n: Name, rest: Text)
    ensures ParsePostfix([Word(n)] + rest) == Some(Suffixes(Plain(Named(n)), rest))
  {
    assert ([Word(n)] + rest)[1..] == rest;
  }

  lemma ReadRecord(e: Type, text: Text, rest: Text)
    requires ParseType(text) == Some((e, [RecordClose] + rest))
    ensures ParsePostfix([RecordOpen] + text) == Some(Suffixes(Plain(RecordOf(e)), rest))
  {
    assert ([RecordOpen] + text)[1..] == text && ([RecordClose] + rest)[1..] == rest;
  }

  lemma ReadObject(fields: seq<Field>, text: Text, rest: Text)
    requires ParseFields(text) == Some((fields, rest))
    ensures ParsePostfix([LBrace] + text) == Some(Suffixes(Plain(ObjectOf(fields)), rest))
  {
    assert ([LBrace] + text)[1..] == text;
  }

  lemma ReadParentheses(e: Type, text: Text, rest: Text)
    requires ParseType(text) == Some((e, [RParen] + rest))
    ensures ParsePostfix([LParen] + text) == Some(Suffixes(Parenthesized(e), rest))
  {
    assert ([LParen] + text)[1..] == text && ([RParen] + rest)[1..] == rest;
  }

  lemma {:induction false} ParsePrintedFields(fields: seq<Field>, rest: Text)
    requires forall i :: 0 <= i < |fields| ==> Shaped(fields[i].content)
    ensures ParseFields(PrintFields(fields) + ([RBrace] + rest)) == Some((fields, rest))
    decreases fields, 0
  {
    hide ParseType, ParseFields, Print, Shaped;
    if fields == [] {
      ReadNoFields(rest);
      assert PrintFields(fields) + ([RBrace] + rest) == [RBrace] + rest;
    } else {
      var f := fields[0];
      var more := PrintFields(fields[1..]) + ([RBrace] + rest);
      ParsePrintedType(f.content, [Semicolon] + more);
      ParsePrintedFields(fields[1..], rest);
      FieldStep(f, Print(f.content) + ([Semicolon] + more), more, fields[1..], rest);
      FieldText(fields, [RBrace] + rest);
      assert fields == [f] + fields[1..];
    }
  }

  lemma FieldText(fields: seq<Field>, rest: Text)
    requires fields != []
    ensures PrintFields(fields) + rest
         == [Property(fields[0].name, fields[0].optional)]
            + (Print(fields[0].content) + ([Semicolon] + (PrintFields(fields[1..]) + rest)))
  {
    hide Print;
  }

  lemma ReadNoFields(rest: Text)
    ensures ParseFields([RBrace] + rest) == Some(([], rest))
  {
    assert ([RBrace] + rest)[1..] == rest;
  }

  lemma FieldStep(f: Field, text: Text, more: Text, fields: seq<Field>, rest: Text)
    requires ParseType(text) == Some((f.content, [Semicolon] + more))
    requires ParseFields(more) == Some((fields, rest))
    ensures ParseFields([Property(f.name, f.optional)] + text) == Some(([f] + fields, rest))
  {
    var all := [Property(f.name, f.optional)] + text;
    assert all[1..] == text;
    assert ([Semicolon] + more)[1..] == more;
  }

  lemma SeveralNeedParentheses(e: Type)
    requires Shaped(e) && (|e.alternatives| > 1 || |e.alternatives[0].parts| > 1)
    ensures NeedsParentheses(Print(e))
  {
    var first := e.alternatives[0].parts;
    assert ShapedConjunction(e.alternatives[0]);
    if |e.alternatives| > 1 {
      assert Print(e) == PrintParts(first) + [Bar] + PrintAlternatives(e.alternatives[1..]);
      assert TokenMentionsOperator(Bar);
    } else {
      assert PrintParts(first) == PrintPrimary(first[0]) + [Amp] + PrintParts(first[1..]);
      assert Print(e) == PrintParts(first);
      assert TokenMentionsOperator(Amp);
    }
  }

  /** Text without an operator comes from a single primary type. */
  lemma SinglePrimary(e: Type)
    requires Shaped(e) && !NeedsParentheses(Print(e))
    ensures |e.alternatives| == 1 && |e.alternatives[0].parts| == 1
    ensures Print(e) == PrintPrimary(e.alternatives[0].parts[0])
    ensures ShapedPrimary(e.alternatives[0].parts[0])
    ensures e == Type([Conjunction([e.alternatives[0].parts[0]])])
  {
    if |e.alternatives| > 1 || |e.alternatives[0].parts| > 1 {
      SeveralNeedParentheses(e);
    }
    var c := e.alternatives[0];
    assert ShapedConjunction(c);
    assert c.parts == [c.parts[0]];
    assert c == Conjunction([c.parts[0]]);
    assert e.alternatives == [c];
    assert Print(e) == PrintParts(c.parts);
  }

  /** Different types print differently. */
  lemma PrintInjective(t: Type, u: Type)
    requires Shaped(t) && Shaped(u) && Print(t) == Print(u)
    ensures t == u
  {
    ParsePrintedType(t, []);
    ParsePrintedType(u, []);
    assert Print(t) + [] == Print(t) && Print(u) + [] == Print(u);
  }
}
