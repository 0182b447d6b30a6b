/** The streaming parser of frontend/src/api/conversationResponses.ts: Server-Sent Events from
    decoded chunks, and the commit rule of the response stream. */
module EventStream {
  import opened Results
  import opened Text

  datatype Frame = Frame(event: string, data: string)

  // ----- line ends

  /** `replace(/\r\n/g, "\n")` */
  function Normalize(s: string): string {
    if |s| < 2 then s
    else if s[0] == '\r' && s[1] == '\n' then "\n" + Normalize(s[2..])
    else [s[0]] + Normalize(s[1..])
  }

  predicate EndsInCR(s: string) { s != [] && s[|s| - 1] == '\r' }

  predicate StartsWithLF(s: string) { s != [] && s[0] == '\n' }

  function Concat(chunks: seq<string>): string {
    if chunks == [] then [] else chunks[0] + Concat(chunks[1..])
  }

  /** The text the parser works on: every chunk normalized on its own. */
  function NormalizedChunks(chunks: seq<string>): string {
    if chunks == [] then [] else Normalize(chunks[0]) + NormalizedChunks(chunks[1..])
  }

  /** Some chunk ends in CR and the text after it starts with LF. */
  predicate SplitsPair(chunks: seq<string>) {
    chunks != [] && ((EndsInCR(chunks[0]) && StartsWithLF(Concat(chunks[1..]))) || SplitsPair(chunks[1..]))
  }

  lemma {:induction false} NormalizeAppend(a: string, b: string)
    ensures |Normalize(a + b)| + (if EndsInCR(a) && StartsWithLF(b) then 1 else 0) == |Normalize(a)| + |Normalize(b)|
    ensures !(EndsInCR(a) && StartsWithLF(b)) ==> Normalize(a + b) == Normalize(a) + Normalize(b)
  {
    hide Normalize;
    NormalizeStep(a + b);
    NormalizeStep(a);
    if a == [] {
      assert a + b == b;
    } else if |a| == 1 {
      NormalizeAppendOne(a[0], b);
      assert a == [a[0]];
    } else if StartsWithPair(a) {
      NormalizeAppend(a[2..], b);
      assert (a + b)[2..] == a[2..] + b;
    } else {
      NormalizeAppend(a[1..], b);
      assert (a + b)[1..] == a[1..] + b;
    }
  }

  lemma NormalizeAppendOne(c: char, b: string)
    ensures Normalize([c]) == [c]
    ensures c == '\r' && StartsWithLF(b) ==> Normalize([c] + b) == Normalize(b)
    ensures !(c == '\r' && StartsWithLF(b)) ==> Normalize([c] + b) == [c] + Normalize(b)
  {
    hide Normalize;
    NormalizeStep([c]);
    NormalizeStep("");
    NormalizeStep([c] + b);
    assert [c][1..] == "" && ([c] + b)[1..] == b;
    if c == '\r' && StartsWithLF(b) {
      assert ([c] + b)[2..] == b[1..];
      NormalizeLF(b);
    }
  }

  predicate StartsWithPair(s: string) { |s| >= 2 && s[0] == '\r' && s[1] == '\n' }

  lemma NormalizeStep(s: string)
    ensures s == [] ==> Normalize(s) == []
    ensures StartsWithPair(s) ==> Normalize(s) == "\n" + Normalize(s[2..])
    ensures s != [] && !StartsWithPair(s) ==> Normalize(s) == [s[0]] + Normalize(s[1..])
  {
    if |s| == 1 { assert s == [s[0]] && s[1..] == []; }
  }

  lemma NormalizeLF(b: string)
    requires StartsWithLF(b)
    ensures Normalize(b) == "\n" + Normalize(b[1..])
  {}

  /** Normalizing chunk by chunk equals normalizing the whole text exactly when no CR LF is split. */
  lemma {:induction false} ChunkwiseNormalization(chunks: seq<string>)
    ensures |NormalizedChunks(chunks)| >= |Normalize(Concat(chunks))|
    ensures NormalizedChunks(chunks) == Normalize(Concat(chunks)) <==> !SplitsPair(chunks)
    ensures |NormalizedChunks(chunks)| == |Normalize(Concat(chunks))| <==> !SplitsPair(chunks)
  {
    if chunks != [] {
      ChunkwiseNormalization(chunks[1..]);
      NormalizeAppend(chunks[0], Concat(chunks[1..]));
    }
  }

  // ----- blocks

  predicate BlankAt(s: string, i: int) {
    0 <= i && i + 1 < |s| && s[i] == '\n' && s[i + 1] == '\n'
  }

  /** `indexOf("\n\n")` */
  function IndexOfBlank(s: string): (i: int)
    ensures -1 <= i && (i >= 0 ==> BlankAt(s, i))
    ensures forall j :: BlankAt(s, j) ==> 0 <= i <= j
  {
    if |s| < 2 then -1
    else if s[0] == '\n' && s[1] == '\n' then 0
    else
      var i := IndexOfBlank(s[1..]);
      assert forall j :: BlankAt(s, j) ==> j > 0 && BlankAt(s[1..], j - 1);
      if i < 0 then -1 else i + 1
  }

  /** All blocks that a blank line ends, and the text after the last of them. */
  function Blocks(text: string): (seq<string>, string)
    decreases |text|
  {
    var i := IndexOfBlank(text);
    if i < 0 then ([], text)
    else
      var (more, rest) := Blocks(text[i + 2..]);
      ([text[..i]] + more, rest)
  }

  lemma {:induction false} BlankInPrefix(a: string, b: string)
    requires IndexOfBlank(a) >= 0
    ensures IndexOfBlank(a + b) == IndexOfBlank(a)
  {
    var i := IndexOfBlank(a);
    assert BlankAt(a + b, i);
    var j := IndexOfBlank(a + b);
    assert BlankAt(a, j);
  }

  /** Blocks found in a prefix stay, and its leftover is all that the rest of the text needs. */
  lemma {:induction false} BlocksAppend(a: string, b: string)
    ensures Blocks(a + b).0 == Blocks(a).0 + Blocks(Blocks(a).1 + b).0
    ensures Blocks(a + b).1 == Blocks(Blocks(a).1 + b).1
    decreases |a|
  {
    var i := IndexOfBlank(a);
    if i >= 0 {
      BlankInPrefix(a, b);
      assert (a + b)[i + 2..] == a[i + 2..] + b;
      assert (a + b)[..i] == a[..i];
      BlocksAppend(a[i + 2..], b);
    }
  }

  // ----- lines and fields

  function Lines(s: string): (r: seq<string>)
    ensures r != []
  {
    if s == [] then [""]
    else if s[0] == '\n' then [""] + Lines(s[1..])
    else var r := Lines(s[1..]); [[s[0]] + r[0]] + r[1..]
  }

  function JoinLines(lines: seq<string>): string {
    if lines == [] then []
    else if |lines| == 1 then lines[0]
    else lines[0] + "\n" + JoinLines(lines[1..])
  }

  function IndexOfColon(s: string): (i: int)
    ensures -1 <= i < |s| && (i >= 0 ==> s[i] == ':')
    ensures forall j :: 0 <= j < |s| && s[j] == ':' ==> 0 <= i <= j
  {
    if s == [] then -1
    else if s[0] == ':' then 0
    else var i := IndexOfColon(s[1..]); if i < 0 then -1 else i + 1
  }

  /** The field name and value of a line; a comment has the empty name. */
  function Field(line: string): (string, string) {
    var i := IndexOfColon(line);
    var name := if i < 0 then line else line[..i];
    var value := if i < 0 then "" else line[i + 1..];
    (name, if value != [] && value[0] == ' ' then value[1..] else value)
  }

  function DataLines(lines: seq<string>): seq<string> {
    if lines == [] then []
    else (if Field(lines[0]).0 == "data" then [Field(lines[0]).1] else []) + DataLines(lines[1..])
  }

  /** The last `event` field counts. */
  function EventName(lines: seq<string>): string {
    if lines == [] then "message"
    else
      var n := |lines| - 1;
      if Field(lines[n]).0 == "event" then Field(lines[n]).1 else EventName(lines[..n])
  }

  function FrameOf(block: string): Option<Frame> {
    var data := DataLines(Lines(block));
    if block == [] || data == [] then None else Some(Frame(EventName(Lines(block)), JoinLines(data)))
  }

  function FramesOf(blocks: seq<string>): seq<Frame> {
    if blocks == [] then []
    else (match FrameOf(blocks[0]) case Some(f) => [f] case None => []) + FramesOf(blocks[1..])
  }

  /** One-shot parsing of a whole text. */
  function Parse(text: string): seq<Frame> {
    var (blocks, rest) := Blocks(text);
    FramesOf(blocks) + FramesOf([Trim(rest)])
  }

  lemma {:induction false} DataLinesAppend(a: seq<string>, line: string)
    ensures DataLines(a + [line]) == DataLines(a) + (if Field(line).0 == "data" then [Field(line).1] else [])
  {
    hide Field, DataLines;
    DataLinesStep(a + [line]);
    DataLinesStep([]);
    if a == [] {
      assert (a + [line])[0] == line && (a + [line])[1..] == [];
    } else {
      DataLinesStep(a);
      DataLinesAppend(a[1..], line);
      assert (a + [line])[1..] == a[1..] + [line];
    }
  }

  lemma DataLinesStep(lines: seq<string>)
    ensures lines == [] ==> DataLines(lines) == []
    ensures lines != [] ==>
      DataLines(lines) == (if Field(lines[0]).0 == "data" then [Field(lines[0]).1] else []) + DataLines(lines[1..])
  {}

  lemma {:induction false} FramesOfAppend(a: seq<string>, b: seq<string>)
    ensures FramesOf(a + b) == FramesOf(a) + FramesOf(b)
  {
    hide FramesOf;
    if a == [] {
      assert a + b == b;
      NoFrames();
    } else {
      FramesOfAppend(a[1..], b);
      FramesOfCons(a[0], a[1..]);
      FramesOfCons(a[0], a[1..] + b);
      assert a == [a[0]] + a[1..] && a + b == [a[0]] + (a[1..] + b);
    }
  }

  lemma FramesOfCons(block: string, rest: seq<string>)
    ensures FramesOf([block] + rest) == FramesOf([block]) + FramesOf(rest)
  {
    hide FrameOf;
    assert ([block] + rest)[0] == block && ([block] + rest)[1..] == rest;
    assert [block][1..] == [];
  }

  // ----- the code

  lemma NoLines()
    ensures EventName([]) == "message" && DataLines([]) == []
  {}

  lemma EventNameAppend(a: seq<string>, line: string)
    ensures EventName(a + [line]) == if Field(line).0 == "event" then Field(line).1 else EventName(a)
  {
    hide Field;
    assert (a + [line])[..|a|] == a;
  }

  /** A comment names no field. */
  lemma CommentField(line: string)
    ensures line != [] && line[0] == ':' ==> Field(line).0 == ""
  {}

  /** The field and the value of one line, split at its first colon. */
  method ParseLine(line: string) returns (field: string, value: string)
    ensures (field, value) == Field(line)
  {
    var separator := IndexOfColon(line);
    field := if separator < 0 then line else line[..separator];
    value := if separator < 0 then "" else line[separator + 1..];
    if value != [] && value[0] == ' ' {
      value := value[1..];
    }
  }

  /** The loop of `parseSSEBlock` over the lines of a block. */
  method ParseLines(lines: seq<string>) returns (event: string, data: seq<string>)
    ensures event == EventName(lines) && data == DataLines(lines)
  {
    hide Field, DataLines, EventName;
    event := "message";
    data := [];
    NoLines();
    assert lines[..0] == [];
    for i := 0 to |lines|
      invariant event == EventName(lines[..i]) && data == DataLines(lines[..i])
    {
      var line := lines[i];
      DataLinesAppend(lines[..i], line);
      EventNameAppend(lines[..i], line);
      CommentField(line);
      assert lines[..i + 1] == lines[..i] + [line];
      if line != [] && line[0] == ':' {
        continue;
      }
      var field, value := ParseLine(line);
      if field == "event" {
        event := value;
      } else if field == "data" {
        data := data + [value];
      }
    }
    assert lines[..|lines|] == lines;
  }

  /** `parseSSEBlock` */
  method ParseBlock(block: string) returns (frame: Option<Frame>)
    ensures frame == FrameOf(block)
  {
    if block == [] {
      return None;
    }
    var event, data := ParseLines(Lines(block));
    frame := if data == [] then None else Some(Frame(event, JoinLines(data)));
  }

  lemma {:induction false} BlocksRest(text: string)
    ensures IndexOfBlank(Blocks(text).1) < 0
    decreases |text|
  {
    var i := IndexOfBlank(text);
    if i >= 0 { BlocksRest(text[i + 2..]); }
  }

  lemma {:induction false} NormalizedChunksAppend(chunks: seq<string>, chunk: string)
    ensures NormalizedChunks(chunks + [chunk]) == NormalizedChunks(chunks) + Normalize(chunk)
  {
    hide Normalize;
    if chunks == [] {
      assert ([] + [chunk])[0] == chunk && ([] + [chunk])[1..] == [];
    } else {
      NormalizedChunksAppend(chunks[1..], chunk);
      assert (chunks + [chunk])[1..] == chunks[1..] + [chunk];
    }
  }

  lemma BlocksStep(text: string)
    ensures var i := IndexOfBlank(text);
      && (i < 0 ==> Blocks(text) == ([], text))
      && (i >= 0 ==> Blocks(text).0 == [text[..i]] + Blocks(text[i + 2..]).0 && Blocks(text).1 == Blocks(text[i + 2..]).1)
  {}

  /** The inner loop of `parseSSE`: yield every complete block of the buffer. */
  method Drain(text: string) returns (frames: seq<Frame>, buffer: string)
    ensures frames == FramesOf(Blocks(text).0) && buffer == Blocks(text).1
  {
    hide FrameOf, Blocks, FramesOf;
    buffer := text;
    frames := [];
    BlocksStep(buffer);
    NoFrames();
    var boundary := IndexOfBlank(buffer);
    while boundary >= 0
      invariant boundary == IndexOfBlank(buffer)
      invariant FramesOf(Blocks(text).0) == frames + FramesOf(Blocks(buffer).0)
      invariant Blocks(text).1 == Blocks(buffer).1
      decreases |buffer|
    {
      var block := buffer[..boundary];
      FramesOfAppend([block], Blocks(buffer[boundary + 2..]).0);
      FramesOfOne(block);
      BlocksStep(buffer);
      buffer := buffer[boundary + 2..];
      var frame := ParseBlock(block);
      if frame.Some? {
        frames := frames + [frame.value];
      }
      BlocksStep(buffer);
      boundary := IndexOfBlank(buffer);
    }
    BlocksStep(buffer);
  }

  lemma NoFrames()
    ensures FramesOf([]) == []
  {}

  /** `parseSSE` on the decoded text of every read, the final flush included. */
  method ParseChunks(chunks: seq<string>) returns (frames: seq<Frame>)
    ensures frames == Parse(NormalizedChunks(chunks))
  {
    hide Normalize, NormalizedChunks, Blocks, FrameOf;
    var buffer := "";
    frames := [];
    assert NormalizedChunks(chunks[..0]) == "" && Blocks("") == ([], "") by { NothingRead(chunks); }
    for k := 0 to |chunks|
      invariant (frames, buffer) == (FramesOf(Blocks(NormalizedChunks(chunks[..k])).0), Blocks(NormalizedChunks(chunks[..k])).1)
    {
      ghost var before := NormalizedChunks(chunks[..k]);
      assert chunks[..k + 1] == chunks[..k] + [chunks[k]];
      NormalizedChunksAppend(chunks[..k], chunks[k]);
      BlocksAppend(before, Normalize(chunks[k]));
      var more;
      more, buffer := Drain(buffer + Normalize(chunks[k]));
      FramesOfAppend(Blocks(before).0, Blocks(Blocks(before).1 + Normalize(chunks[k])).0);
      frames := frames + more;
    }
    assert chunks[..|chunks|] == chunks;
    FramesOfOne(Trim(buffer));
    var tail := ParseBlock(Trim(buffer));
    if tail.Some? {
      frames := frames + [tail.value];
    }
  }

  lemma FramesOfOne(block: string)
    ensures FramesOf([block]) == match FrameOf(block) case Some(f) => [f] case None => []
  {
    hide FrameOf;
    assert [block][1..] == [];
  }

  lemma NothingRead(chunks: seq<string>)
    ensures NormalizedChunks(chunks[..0]) == "" && Blocks("") == ([], "")
  {}

  /** Chunking does not matter as long as it never separates a CR from its LF. */
  lemma ChunkingIndependent(chunks: seq<string>)
    requires !SplitsPair(chunks)
    ensures Parse(NormalizedChunks(chunks)) == Parse(Normalize(Concat(chunks)))
  {
    ChunkwiseNormalization(chunks);
  }

  // ----- what a sender writes is what the parser yields

  function Encode(f: Frame): string { JoinLines(FrameLines(f)) + "\n\n" }

  function FrameLines(f: Frame): seq<string> { ["event: " + f.event] + Prefixed(Lines(f.data)) }

  function Prefixed(lines: seq<string>): seq<string> {
    if lines == [] then [] else ["data: " + lines[0]] + Prefixed(lines[1..])
  }

  function EncodeAll(frames: seq<Frame>): string {
    if frames == [] then [] else Encode(frames[0]) + EncodeAll(frames[1..])
  }

  /** The event name is one line; carriage returns are not transmitted. */
  predicate Sendable(f: Frame) {
    '\n' !in f.event && '\r' !in f.event && '\r' !in f.data
  }

  /** Lines as a split yields them, none of them empty. */
  predicate FullLines(lines: seq<string>) {
    forall l :: l in lines ==> l != [] && '\n' !in l
  }

  lemma {:induction false} LinesOfLine(l: string, rest: string)
    requires '\n' !in l
    ensures Lines(l) == [l]
    ensures Lines(l + "\n" + rest) == [l] + Lines(rest)
  {
    if l == [] {
      assert (l + "\n" + rest)[1..] == rest;
    } else {
      LinesOfLine(l[1..], rest);
      assert l == [l[0]] + l[1..];
      assert (l + "\n" + rest)[1..] == l[1..] + "\n" + rest;
    }
  }

  lemma {:induction false} LinesOfJoined(lines: seq<string>)
    requires lines != [] && forall l :: l in lines ==> '\n' !in l
    ensures Lines(JoinLines(lines)) == lines
  {
    assert lines[0] in lines;
    if |lines| == 1 {
      LinesOfLine(lines[0], "");
    } else {
      LinesOfLine(lines[0], JoinLines(lines[1..]));
      LinesOfJoined(lines[1..]);
    }
  }

  lemma {:induction false} JoinedOfLines(s: string)
    ensures JoinLines(Lines(s)) == s
    ensures forall l :: l in Lines(s) ==> '\n' !in l
    ensures forall l, c :: l in Lines(s) && c in l ==> c in s
  {
    if s != [] {
      JoinedOfLines(s[1..]);
      var r := Lines(s[1..]);
      assert s == [s[0]] + s[1..];
      hide Lines, JoinLines;
      PrefixedLines(s[0], r);
      assert Lines(s) == (if s[0] == '\n' then [""] + r else [[s[0]] + r[0]] + r[1..]) by { LinesStep(s); }
    }
  }

  lemma LinesStep(s: string)
    requires s != []
    ensures var r := Lines(s[1..]); Lines(s) == if s[0] == '\n' then [""] + r else [[s[0]] + r[0]] + r[1..]
  {}

  lemma PrefixedLines(c: char, r: seq<string>)
    requires r != []
    ensures JoinLines([""] + r) == "\n" + JoinLines(r)
    ensures JoinLines([[c] + r[0]] + r[1..]) == [c] + JoinLines(r)
  {
    assert ([""] + r)[1..] == r;
    if |r| > 1 {
      assert ([[c] + r[0]] + r[1..])[1..] == r[1..];
    }
  }

  lemma {:induction false} NoBlankInside(lines: seq<string>, rest: string)
    requires lines != [] && FullLines(lines)
    ensures IndexOfBlank(JoinLines(lines) + "\n\n" + rest) == |JoinLines(lines)|
  {
    var text := JoinLines(lines) + "\n\n" + rest;
    assert BlankAt(text, |JoinLines(lines)|);
    forall j | 0 <= j < |JoinLines(lines)| ensures !BlankAt(text, j) {
      NoBlankAt(lines, j);
    }
  }

  lemma JoinedLine(lines: seq<string>)
    requires |lines| == 1
    ensures JoinLines(lines) == lines[0]
  {}

  lemma JoinedFirst(lines: seq<string>)
    requires |lines| > 1
    ensures JoinLines(lines) == lines[0] + "\n" + JoinLines(lines[1..])
  {}

  lemma {:induction false} NoBlankAt(lines: seq<string>, j: nat)
    requires lines != [] && FullLines(lines) && j < |JoinLines(lines)|
    ensures JoinLines(lines)[0] != '\n' && JoinLines(lines)[|JoinLines(lines)| - 1] != '\n'
    ensures j + 1 < |JoinLines(lines)| ==> !BlankAt(JoinLines(lines), j)
  {
    hide JoinLines;
    var first := lines[0];
    assert first in lines;
    if |lines| == 1 {
      JoinedLine(lines);
    } else {
      var more := JoinLines(lines[1..]);
      assert lines[1..][0] in lines;
      forall l | l in lines[1..] ensures l != [] && '\n' !in l { assert l in lines; }
      JoinedNonEmpty(lines[1..]);
      var k := if j > |first| then j - |first| - 1 else 0;
      JoinedFirst(lines);
      NoBlankAt(lines[1..], k);
      if j > |first| && j + 1 < |JoinLines(lines)| {
        assert JoinLines(lines)[j] == more[k] && JoinLines(lines)[j + 1] == more[k + 1];
      }
    }
  }

  lemma FieldOf(name: string, value: string)
    requires ':' !in name
    ensures Field(name + ": " + value) == (name, value)
  {
    var line := name + ": " + value;
    assert line[|name|] == ':';
    assert IndexOfColon(line) == |name|;
    assert line[..|name|] == name;
    assert line[|name| + 1..] == " " + value;
  }

  lemma NamedFields(value: string)
    ensures Field("data: " + value) == ("data", value)
    ensures Field("event: " + value) == ("event", value)
  {
    FieldOf("data", value);
    FieldOf("event", value);
    assert "data" + ": " + value == "data: " + value;
    assert "event" + ": " + value == "event: " + value;
  }

  lemma {:induction false} DataOfPrefixed(lines: seq<string>)
    ensures DataLines(Prefixed(lines)) == lines
    ensures forall l :: l in Prefixed(lines) ==> Field(l).0 == "data" && l != []
    ensures (forall l :: l in lines ==> '\n' !in l) ==> forall l :: l in Prefixed(lines) ==> '\n' !in l
  {
    hide Field;
    if lines != [] {
      NamedFields(lines[0]);
      DataOfPrefixed(lines[1..]);
      var rest := Prefixed(lines[1..]);
      assert (["data: " + lines[0]] + rest)[1..] == rest;
      assert lines[0] in lines;
    }
  }

  lemma {:induction false} EventNameFirst(line: string, rest: seq<string>)
    requires Field(line).0 == "event" && forall l :: l in rest ==> Field(l).0 == "data"
    ensures EventName([line] + rest) == Field(line).1
  {
    hide Field;
    var all := [line] + rest;
    if rest != [] {
      var front := rest[..|rest| - 1];
      EventNameFirst(line, front);
      assert all[..|all| - 1] == [line] + front;
      assert all[|all| - 1] in rest;
    }
  }

  lemma EncodedFrame(f: Frame)
    requires Sendable(f)
    ensures FullLines(FrameLines(f)) && FrameOf(JoinLines(FrameLines(f))) == Some(f)
  {
    var lines := Lines(f.data);
    JoinedOfLines(f.data);
    NamedFields(f.event);
    DataOfPrefixed(lines);
    var first, rest := "event: " + f.event, Prefixed(lines);
    hide Field, Lines, DataLines, EventName, JoinLines, Prefixed;
    EventNameFirst(first, rest);
    assert '\n' !in first;
    assert FrameLines(f) == [first] + rest;
    LinesOfJoined([first] + rest);
    DataLinesSkip(first, rest);
    JoinedNonEmpty([first] + rest);
  }

  lemma JoinedNonEmpty(lines: seq<string>)
    requires lines != [] && lines[0] != []
    ensures JoinLines(lines) != []
  {}

  lemma DataLinesSkip(first: string, rest: seq<string>)
    requires Field(first).0 == "event"
    ensures DataLines([first] + rest) == DataLines(rest)
  {
    hide Field;
    assert ([first] + rest)[1..] == rest;
  }

  lemma ParseStep(block: string, more: string)
    requires IndexOfBlank(block + "\n\n" + more) == |block|
    ensures Parse(block + "\n\n" + more) == FramesOf([block]) + Parse(more)
  {
    hide Blocks, FramesOf, FrameOf, Trim, IndexOfBlank;
    var text := block + "\n\n" + more;
    BlocksStep(text);
    assert text[..|block|] == block && text[|block| + 2..] == more;
    FramesOfAppend([block], Blocks(more).0);
  }

  lemma FramesHaveLines(f: Frame)
    ensures FrameLines(f) != []
  {}

  lemma NothingParsed()
    ensures Parse("") == []
  {
    assert Blocks("") == ([], "");
    EmptyBlock();
  }

  lemma {:induction false} BlocksOfEncoded(frames: seq<Frame>)
    requires forall f :: f in frames ==> Sendable(f)
    ensures Parse(EncodeAll(frames)) == frames
  {
    hide FrameOf, JoinLines, FrameLines, FullLines, Sendable, IndexOfBlank, Parse;
    if frames == [] {
      NothingParsed();
    } else {
      var f, more := frames[0], EncodeAll(frames[1..]);
      assert f in frames;
      EncodedFrame(f);
      var block := JoinLines(FrameLines(f));
      assert FrameLines(f) != [] by { FramesHaveLines(f); }
      NoBlankInside(FrameLines(f), more);
      BlocksOfEncoded(frames[1..]);
      FramesOfOne(block);
      assert EncodeAll(frames) == block + "\n\n" + more;
      ParseStep(block, more);
    }
  }

  lemma {:induction false} NormalizeWithoutCR(s: string)
    requires '\r' !in s
    ensures Normalize(s) == s
  {
    if |s| >= 2 {
      assert s[0] in s;
      NormalizeWithoutCR(s[1..]);
      assert s == [s[0]] + s[1..];
    }
  }

  lemma {:induction false} NoCRNoSplit(chunks: seq<string>)
    requires '\r' !in Concat(chunks)
    ensures !SplitsPair(chunks)
  {
    if chunks != [] {
      assert forall c :: c in Concat(chunks[1..]) ==> c in Concat(chunks);
      assert forall c :: c in chunks[0] ==> c in Concat(chunks);
      NoCRNoSplit(chunks[1..]);
    }
  }

  lemma {:induction false} EncodedWithoutCR(frames: seq<Frame>)
    requires forall f :: f in frames ==> Sendable(f)
    ensures '\r' !in EncodeAll(frames)
  {
    if frames != [] {
      EncodedWithoutCR(frames[1..]);
      var f := frames[0];
      assert Sendable(f);
      JoinedOfLines(f.data);
      forall l | l in Lines(f.data) ensures '\r' !in l {}
      PrefixedWithoutCR(Lines(f.data));
      assert '\r' !in "event: " + f.event;
      forall l | l in FrameLines(f) ensures '\r' !in l {}
      JoinedWithoutCR(FrameLines(f));
    }
  }

  lemma {:induction false} PrefixedWithoutCR(lines: seq<string>)
    requires forall l :: l in lines ==> '\r' !in l
    ensures forall l :: l in Prefixed(lines) ==> '\r' !in l
  {
    if lines != [] {
      assert lines[0] in lines;
      PrefixedWithoutCR(lines[1..]);
    }
  }

  lemma {:induction false} JoinedWithoutCR(lines: seq<string>)
    requires forall l :: l in lines ==> '\r' !in l
    ensures '\r' !in JoinLines(lines)
  {
    if lines != [] {
      assert lines[0] in lines;
      JoinedWithoutCR(lines[1..]);
    }
  }

  /** However the bytes of encoded events are cut into chunks, the parser yields exactly those events. */
  lemma EventsSurviveChunking(frames: seq<Frame>, chunks: seq<string>)
    requires forall f :: f in frames ==> Sendable(f)
    requires Concat(chunks) == EncodeAll(frames)
    ensures Parse(NormalizedChunks(chunks)) == frames
  {
    EncodedWithoutCR(frames);
    NoCRNoSplit(chunks);
    ChunkingIndependent(chunks);
    NormalizeWithoutCR(EncodeAll(frames));
    BlocksOfEncoded(frames);
  }

  /** A CR LF cut in two leaves the CR in the data: every one-line event read so differs from the whole. */
  lemma SplitPairChangesData(data: string)
    requires '\n' !in data && '\r' !in data
    ensures var chunks := ["data: " + data + "\r", "\n\n"];
      && Parse(NormalizedChunks(chunks)) == [Frame("message", data + "\r")]
      && Parse(Normalize(Concat(chunks))) == [Frame("message", data)]
  {
    var line := "data: " + data;
    assert '\r' !in line && '\n' !in line;
    OneLine(data);
    OneLine(data + "\r");
    var marked := line + "\r";
    assert marked == "data: " + (data + "\r");
    var chunks := [marked, "\n\n"];
    hide Parse;
    assert NormalizedChunks(chunks) == marked + "\n\n" by { ChunksSeparately(line); }
    assert Normalize(Concat(chunks)) == line + "\n\n" by { ChunksTogether(line); }
  }

  lemma ChunksSeparately(line: string)
    requires '\r' !in line
    ensures NormalizedChunks([line + "\r", "\n\n"]) == line + "\r" + "\n\n"
  {
    NormalizeWithoutCR(line);
    NormalizeWithoutCR("\n\n");
    NormalizeAppend(line, "\r");
    var chunks := [line + "\r", "\n\n"];
    hide Normalize;
    assert chunks[1..] == ["\n\n"] && ["\n\n"][1..] == [];
    assert NormalizedChunks(["\n\n"]) == Normalize("\n\n");
    assert Normalize("\r") == "\r" by { NormalizeShort("\r"); }
  }

  lemma NormalizeShort(s: string)
    requires |s| < 2
    ensures Normalize(s) == s
  {}

  lemma ChunksTogether(line: string)
    requires '\r' !in line
    ensures Normalize(Concat([line + "\r", "\n\n"])) == line + "\n\n"
  {
    NormalizeWithoutCR(line);
    NormalizeWithoutCR("\n");
    assert "\r\n\n"[2..] == "\n";
    assert Normalize("\r\n\n") == "\n" + Normalize("\n");
    NormalizeAppend(line, "\r\n\n");
    var chunks := [line + "\r", "\n\n"];
    hide Normalize;
    assert chunks[1..] == ["\n\n"] && ["\n\n"][1..] == [];
    assert Concat(["\n\n"]) == "\n\n";
    assert Concat(chunks) == line + "\r\n\n";
  }

  lemma OneLine(data: string)
    requires '\n' !in data
    ensures Parse("data: " + data + "\n\n") == [Frame("message", data)]
  {
    var line := "data: " + data;
    assert '\n' !in line;
    NamedFields(data);
    LinesOfLine(line, "");
    OneDataLine(line);
    assert FrameOf(line) == Some(Frame("message", data)) by {
      hide Field, Lines, DataLines, EventName;
    }
    assert FullLines([line]);
    NoBlankInside([line], "");
    hide FrameOf, IndexOfBlank, Lines, Field;
    FramesOfOne(line);
    FramesOfOne("");
    assert FrameOf("") == None by { EmptyBlock(); }
    var text := line + "\n\n";
    assert JoinLines([line]) == line && line + "\n\n" + "" == text;
    assert text[..|line|] == line && text[|line| + 2..] == "";
    assert Blocks("") == ([], "") by { NothingRead([]); }
    assert Blocks(text) == ([line], "");
  }

  lemma EmptyBlock()
    ensures FrameOf("") == None
  {}

  lemma OneDataLine(line: string)
    requires Field(line).0 == "data"
    ensures DataLines([line]) == [Field(line).1] && EventName([line]) == "message"
  {
    hide Field;
    assert [line][1..] == [] && [line][..0] == [];
  }
}
