/** The DNS question decoder and the controlled answers of scripts/ci/bifrost_rebinding_dns.py. */
module RebindingDns {
  import opened Results

  type Byte = x: int | 0 <= x < 256
  type Bytes = seq<Byte>

  datatype DecodeError = ShortHeader | TruncatedName | Compressed | TruncatedLabel | NotAscii | TruncatedType

  /** Host name, type and class of the question, and the offset where the question ends. */
  datatype Question = Question(hostname: Bytes, qtype: int, qclass: int, end: nat)

  const DOT: Byte := 0x2E

  predicate Ascii(part: Bytes) { forall i :: 0 <= i < |part| ==> part[i] < 128 }

  function Lower(b: Byte): Byte { if 65 <= b <= 90 then b + 32 else b }

  function Lowered(s: Bytes): (r: Bytes)
    ensures |r| == |s| && forall i :: 0 <= i < |s| ==> r[i] == Lower(s[i])
  {
    seq(|s|, i requires 0 <= i < |s| => Lower(s[i]))
  }

  /** `".".join(labels)` */
  function JoinDots(labels: seq<Bytes>): Bytes {
    if labels == [] then []
    else if |labels| == 1 then labels[0]
    else labels[0] + [DOT] + JoinDots(labels[1..])
  }

  /** The labels from `offset` on and the offset after the root label. */
  function Labels(packet: Bytes, offset: nat): (r: Result<(seq<Bytes>, nat), DecodeError>)
    ensures r.Ok? ==> offset < r.value.1 <= |packet|
    decreases |packet| - offset
  {
    if offset >= |packet| then Err(TruncatedName)
    else
      var length := packet[offset];
      if length == 0 then Ok(([], offset + 1))
      else if length >= 64 then Err(Compressed)
      else if offset + 1 + length > |packet| then Err(TruncatedLabel)
      else
        var part := packet[offset + 1..offset + 1 + length];
        if !Ascii(part) then Err(NotAscii)
        else
          var rest :- Labels(packet, offset + 1 + length);
          Ok(([part] + rest.0, rest.1))
  }

  function U16(hi: Byte, lo: Byte): int { hi * 256 + lo }

  function Decoded(packet: Bytes): Result<Question, DecodeError> {
    if |packet| < 12 then Err(ShortHeader)
    else
      var name :- Labels(packet, 12);
      var at := name.1;
      if at + 4 > |packet| then Err(TruncatedType)
      else Ok(Question(Lowered(JoinDots(name.0)), U16(packet[at], packet[at + 1]), U16(packet[at + 2], packet[at + 3]), at + 4))
  }

  type NameResult = Result<(seq<Bytes>, nat), DecodeError>

  /** The result for a name of which `labels` are read already. */
  function After(labels: seq<Bytes>, rest: NameResult): NameResult {
    match rest
    case Ok(found) => Ok((labels + found.0, found.1))
    case Err(e) => Err(e)
  }

  lemma AfterNone(rest: NameResult)
    ensures After([], rest) == rest
  {
    if rest.Ok? { assert [] + rest.value.0 == rest.value.0; }
  }

  lemma AfterOne(labels: seq<Bytes>, part: Bytes, rest: NameResult)
    ensures After(labels, After([part], rest)) == After(labels + [part], rest)
  {
    if rest.Ok? { assert labels + ([part] + rest.value.0) == labels + [part] + rest.value.0; }
  }

  lemma LabelsAt(packet: Bytes, offset: nat)
    ensures offset >= |packet| ==> Labels(packet, offset) == Err(TruncatedName)
    ensures offset < |packet| && packet[offset] == 0 ==> Labels(packet, offset) == Ok(([], offset + 1))
    ensures offset < |packet| && packet[offset] >= 64 ==> Labels(packet, offset) == Err(Compressed)
    ensures offset < |packet| && 0 < packet[offset] < 64 ==>
      var next := offset + 1 + packet[offset];
      Labels(packet, offset) ==
        if next > |packet| then Err(TruncatedLabel)
        else if !Ascii(packet[offset + 1..next]) then Err(NotAscii)
        else After([packet[offset + 1..next]], Labels(packet, next))
  {
    hide Ascii;
  }

  /** `_decode_question` */
  method DecodeQuestion(packet: Bytes) returns (r: Result<Question, DecodeError>)
    ensures r == Decoded(packet)
  {
    if |packet| < 12 {
      return Err(ShortHeader);
    }
    var offset: nat := 12;
    var labels: seq<Bytes> := [];
    hide Labels, Ascii, Lowered, JoinDots, U16;
    AfterNone(Labels(packet, 12));
    while true
      invariant 12 <= offset
      invariant Labels(packet, 12) == After(labels, Labels(packet, offset))
      decreases |packet| - offset
    {
      LabelsAt(packet, offset);
      if offset >= |packet| {
        return Err(TruncatedName);
      }
      var length := packet[offset];
      if length == 0 {
        offset := offset + 1;
        break;
      }
      if length >= 64 {
        return Err(Compressed);
      }
      if offset + 1 + length > |packet| {
        return Err(TruncatedLabel);
      }
      var part := packet[offset + 1..offset + 1 + length];
      if !Ascii(part) {
        return Err(NotAscii);
      }
      AfterOne(labels, part, Labels(packet, offset + 1 + length));
      labels := labels + [part];
      offset := offset + 1 + length;
    }
    assert labels + [] == labels;
    if offset + 4 > |packet| {
      return Err(TruncatedType);
    }
    r := Ok(Question(Lowered(JoinDots(labels)), U16(packet[offset], packet[offset + 1]),
                     U16(packet[offset + 2], packet[offset + 3]), offset + 4));
  }

  // ----- encoding, sections 3.1, 4.1.1 and 4.1.2 of RFC 1035

  predicate Encodable(labels: seq<Bytes>) {
    forall i :: 0 <= i < |labels| ==> 1 <= |labels[i]| <= 63 && Ascii(labels[i])
  }

  function EncodeName(labels: seq<Bytes>): Bytes
    requires Encodable(labels)
  {
    if labels == [] then [0] else [|labels[0]|] + labels[0] + EncodeName(labels[1..])
  }

  function Word16(v: int): Bytes
    requires 0 <= v < 0x1_0000
  {
    [v / 256, v % 256]
  }

  function EncodeQuestion(labels: seq<Bytes>, qtype: int, qclass: int): Bytes
    requires Encodable(labels) && 0 <= qtype < 0x1_0000 && 0 <= qclass < 0x1_0000
  {
    EncodeName(labels) + Word16(qtype) + Word16(qclass)
  }

  lemma LabelStep(packet: Bytes, offset: nat, part: Bytes, more: seq<Bytes>, end: nat)
    requires offset + 1 + |part| <= |packet| && packet[offset] == |part| && 1 <= |part| <= 63 && Ascii(part)
    requires packet[offset + 1..offset + 1 + |part|] == part
    requires Labels(packet, offset + 1 + |part|) == Ok((more, end))
    ensures Labels(packet, offset) == Ok(([part] + more, end))
  {}

  lemma {:induction false} LabelsOfName(before: Bytes, labels: seq<Bytes>, after: Bytes)
    requires Encodable(labels)
    ensures Labels(before + EncodeName(labels) + after, |before|) == Ok((labels, |before| + |EncodeName(labels)|))
    decreases |labels|
  {
    hide Labels, Ascii;
    if labels == [] {
      LabelsAt(before + [0] + after, |before|);
    } else {
      var part, name := labels[0], EncodeName(labels[1..]);
      var packet := before + ([|part|] + part + name) + after;
      assert EncodeName(labels) == [|part|] + part + name;
      hide EncodeName;
      Spliced(before, part, name, after);
      LabelsOfName(before + [|part|] + part, labels[1..], after);
      LabelStep(packet, |before|, part, labels[1..], |before| + 1 + |part| + |name|);
      assert [part] + labels[1..] == labels;
    }
  }

  lemma Spliced(before: Bytes, part: Bytes, name: Bytes, after: Bytes)
    requires |part| < 256
    ensures var packet := before + ([|part|] + part + name) + after;
      && packet == (before + [|part|] + part) + name + after && |before + [|part|] + part| == |before| + 1 + |part|
      && packet[|before|] == |part| && packet[|before| + 1..|before| + 1 + |part|] == part
  {}

  /** Whatever the header and the rest of the packet, an encoded question decodes to itself up to case. */
  lemma DecodeInvertsEncode(header: Bytes, labels: seq<Bytes>, qtype: int, qclass: int, rest: Bytes)
    requires |header| == 12 && Encodable(labels) && 0 <= qtype < 0x1_0000 && 0 <= qclass < 0x1_0000
    ensures Decoded(header + EncodeQuestion(labels, qtype, qclass) + rest)
         == Ok(Question(Lowered(JoinDots(labels)), qtype, qclass, 12 + |EncodeQuestion(labels, qtype, qclass)|))
  {
    var tail := Word16(qtype) + Word16(qclass) + rest;
    var packet := header + EncodeName(labels) + tail;
    assert packet == header + EncodeQuestion(labels, qtype, qclass) + rest;
    LabelsOfName(header, labels, tail);
    var at := 12 + |EncodeName(labels)|;
    BytesOfWord(qtype);
    BytesOfWord(qclass);
    hide Word16, U16, Lowered, JoinDots, Labels, EncodeName;
    assert packet[at..at + 4] == Word16(qtype) + Word16(qclass);
    assert packet[at] == packet[at..at + 4][0] && packet[at + 1] == packet[at..at + 4][1];
    assert packet[at + 2] == packet[at..at + 4][2] && packet[at + 3] == packet[at..at + 4][3];
  }

  lemma {:induction false} NameOfLabels(packet: Bytes, offset: nat)
    requires Labels(packet, offset).Ok?
    ensures var (labels, end) := Labels(packet, offset).value;
      Encodable(labels) && packet[offset..end] == EncodeName(labels)
    decreases |packet| - offset
  {
    hide Labels, Ascii;
    LabelsAt(packet, offset);
    var length := packet[offset];
    if length == 0 {
      assert packet[offset..offset + 1] == [0];
    } else {
      var next := offset + 1 + length;
      NameOfLabels(packet, next);
      var (rest, end) := Labels(packet, next).value;
      hide After;
      ReadOne(packet, offset, rest, end);
    }
  }

  lemma ReadOne(packet: Bytes, offset: nat, rest: seq<Bytes>, end: nat)
    requires offset < |packet| && 0 < packet[offset] < 64
    requires offset + 1 + packet[offset] <= end <= |packet|
    requires Encodable(rest) && packet[offset + 1 + packet[offset]..end] == EncodeName(rest)
    requires Ascii(packet[offset + 1..offset + 1 + packet[offset]])
    ensures var labels := [packet[offset + 1..offset + 1 + packet[offset]]] + rest;
      && After([packet[offset + 1..offset + 1 + packet[offset]]], Ok((rest, end))) == Ok((labels, end))
      && Encodable(labels) && packet[offset..end] == EncodeName(labels)
  {
    hide Ascii;
    var next := offset + 1 + packet[offset];
    var labels := [packet[offset + 1..next]] + rest;
    assert labels[1..] == rest;
    assert packet[offset..end] == [packet[offset]] + packet[offset + 1..next] + packet[next..end];
  }

  ghost predicate IsQuestion(question: Bytes, q: Question, labels: seq<Bytes>) {
    && Encodable(labels) && 0 <= q.qtype < 0x1_0000 && 0 <= q.qclass < 0x1_0000
    && question == EncodeQuestion(labels, q.qtype, q.qclass) && q.hostname == Lowered(JoinDots(labels))
  }

  lemma WordOfBytes(hi: Byte, lo: Byte)
    ensures 0 <= U16(hi, lo) < 0x1_0000 && Word16(U16(hi, lo)) == [hi, lo]
  {}

  lemma BytesOfWord(v: int)
    requires 0 <= v < 0x1_0000
    ensures |Word16(v)| == 2 && U16(Word16(v)[0], Word16(v)[1]) == v
  {}

  /** Only encoded questions decode, and the reported end is the end of the encoding. */
  lemma DecodedIsEncoded(packet: Bytes) returns (labels: seq<Bytes>)
    requires Decoded(packet).Ok?
    ensures var q := Decoded(packet).value; 12 <= q.end <= |packet| && IsQuestion(packet[12..q.end], q, labels)
  {
    var q := Decoded(packet).value;
    NameOfLabels(packet, 12);
    var at := Labels(packet, 12).value.1;
    labels := Labels(packet, 12).value.0;
    WordOfBytes(packet[at], packet[at + 1]);
    WordOfBytes(packet[at + 2], packet[at + 3]);
    hide Word16, U16, Lowered, JoinDots, Labels, EncodeName;
    assert packet[12..at + 4] == packet[12..at] + [packet[at], packet[at + 1]] + [packet[at + 2], packet[at + 3]];
  }

  // ----- controlled answers

  type Address = a: Bytes | |a| == 4 witness [0, 0, 0, 0]

  /** The answers to `n` A queries since the last reset. */
  function Answers(first: Address, rebound: Address, n: nat): seq<Address> {
    if n == 0 then [] else Answers(first, rebound, n - 1) + [if n == 1 then first else rebound]
  }

  class DnsState {
    const hostname: Bytes
    const firstIp: Address
    const reboundIp: Address
    var aQueries: nat
    var aaaaQueries: nat
    var forwardedQueries: nat
    var forwardFailures: nat
    var answers: seq<Address>

    ghost predicate Valid()
      reads this
    {
      answers == Answers(firstIp, reboundIp, aQueries) && forwardFailures <= forwardedQueries
    }

    /** `hostname.rstrip(".").casefold()` */
    constructor (hostname: Bytes, firstIp: Address, reboundIp: Address)
      ensures Valid() && aQueries == 0 && aaaaQueries == 0 && forwardedQueries == 0 && forwardFailures == 0
      ensures this.firstIp == firstIp && this.reboundIp == reboundIp && this.hostname == Lowered(WithoutDots(hostname))
    {
      this.hostname := Lowered(WithoutDots(hostname));
      this.firstIp, this.reboundIp := firstIp, reboundIp;
      aQueries, aaaaQueries, forwardedQueries, forwardFailures, answers := 0, 0, 0, 0, [];
    }

    /** `answer_a`: the first query since the last reset gets the public address, every later one the other. */
    method AnswerA() returns (answer: Address)
      requires Valid()
      modifies `aQueries, `answers
      ensures Valid() && aQueries == old(aQueries) + 1 && answers == old(answers) + [answer]
      ensures answer == if old(aQueries) == 0 then firstIp else reboundIp
    {
      aQueries := aQueries + 1;
      answer := if aQueries == 1 then firstIp else reboundIp;
      answers := answers + [answer];
    }

    /** `record_aaaa` */
    method RecordAaaa()
      requires Valid()
      modifies `aaaaQueries
      ensures Valid() && aaaaQueries == old(aaaaQueries) + 1
    {
      aaaaQueries := aaaaQueries + 1;
    }

    /** `record_forward` */
    method RecordForward(success: bool)
      requires Valid()
      modifies `forwardedQueries, `forwardFailures
      ensures Valid() && forwardedQueries == old(forwardedQueries) + 1
      ensures forwardFailures == old(forwardFailures) + (if success then 0 else 1)
    {
      forwardedQueries := forwardedQueries + 1;
      if !success {
        forwardFailures := forwardFailures + 1;
      }
    }

    method Reset()
      modifies this
      ensures Valid() && aQueries == 0 && aaaaQueries == 0 && forwardedQueries == 0 && forwardFailures == 0 && answers == []
    {
      aQueries, aaaaQueries, forwardedQueries, forwardFailures, answers := 0, 0, 0, 0, [];
    }

    /** `_target_dns_response`: `None` leaves the query to the upstream resolver. */
    method TargetResponse(packet: Bytes) returns (response: Option<Bytes>)
      requires Valid()
      modifies `aQueries, `aaaaQueries, `answers
      ensures Valid()
      ensures response.None? <==> Decoded(packet).Ok? && !IsTarget(Decoded(packet).value)
      ensures response.Some? ==> response.value == Response(packet, TransactionId(packet), Answer(Decoded(packet), old(aQueries)))
      ensures answers == old(answers) + Answer(Decoded(packet), old(aQueries))
      ensures aaaaQueries == old(aaaaQueries) + (if response.Some? && AsksFor(Decoded(packet), 28) then 1 else 0)
    {
      var transactionId := TransactionId(packet);
      var decoded := DecodeQuestion(packet);
      if decoded.Err? {
        return Some(transactionId + Header(0x8181, 0, 0));
      }
      var q := decoded.value;
      if !IsTarget(q) {
        return None;
      }
      ghost var labels := DecodedIsEncoded(packet);
      var question := packet[12..q.end];
      var answer: Bytes := [];
      var answerCount := 0;
      if q.qtype == 1 {
        var ip := AnswerA();
        answer := AnswerRecord(ip);
        answerCount := 1;
      } else if q.qtype == 28 {
        RecordAaaa();
      }
      response := Some(transactionId + Header(0x8180, 1, answerCount) + question + answer);
    }

    predicate IsTarget(q: Question) { q.hostname == hostname && q.qclass == 1 }

    predicate AsksFor(decoded: Result<Question, DecodeError>, qtype: int) {
      decoded.Ok? && IsTarget(decoded.value) && decoded.value.qtype == qtype
    }

    /** The address given away by one query, if any. */
    function Answer(decoded: Result<Question, DecodeError>, earlier: nat): seq<Address> {
      if AsksFor(decoded, 1) then [if earlier == 0 then firstIp else reboundIp] else []
    }
  }

  function WithoutDots(s: Bytes): Bytes {
    if s != [] && s[|s| - 1] == DOT then WithoutDots(s[..|s| - 1]) else s
  }

  function TransactionId(packet: Bytes): Bytes { if |packet| < 2 then packet else packet[..2] }

  function Header(flags: int, questions: int, answers: int): Bytes
    requires 0 <= flags < 0x1_0000 && 0 <= questions < 0x1_0000 && 0 <= answers < 0x1_0000
  {
    Word16(flags) + Word16(questions) + Word16(answers) + Word16(0) + Word16(0)
  }

  /** A pointer to the question's name, type A, class IN, no time to live, four bytes of address. */
  function AnswerRecord(ip: Address): Bytes {
    [0xC0, 0x0C] + Word16(1) + Word16(1) + [0, 0, 0, 0] + Word16(4) + ip
  }

  function Response(packet: Bytes, id: Bytes, answers: seq<Address>): Bytes
    requires |answers| <= 1
  {
    if Decoded(packet).Err? then id + Header(0x8181, 0, 0)
    else if 12 <= Decoded(packet).value.end <= |packet| then
      id + Header(0x8180, 1, |answers|) + packet[12..Decoded(packet).value.end]
        + (if answers == [] then [] else AnswerRecord(answers[0]))
    else []
  }

  /** A controlled response keeps the transaction id and repeats the question: it decodes to the same
      name, type, class and end offset as the query. */
  lemma ResponseRepeatsQuestion(packet: Bytes, answers: seq<Address>)
    requires Decoded(packet).Ok? && |answers| <= 1
    ensures Decoded(Response(packet, TransactionId(packet), answers)) == Decoded(packet)
    ensures Response(packet, TransactionId(packet), answers)[..2] == packet[..2]
  {
    var q := Decoded(packet).value;
    var labels := DecodedIsEncoded(packet);
    var header := TransactionId(packet) + Header(0x8180, 1, |answers|);
    var rest := if answers == [] then [] else AnswerRecord(answers[0]);
    DecodeInvertsEncode(header, labels, q.qtype, q.qclass, rest);
    assert Response(packet, TransactionId(packet), answers) == header + packet[12..q.end] + rest;
  }

  // ----- what a client reads

  /** Where a compression pointer at `at` points to (section 4.1.4 of RFC 1035). */
  function Pointer(packet: Bytes, at: nat): Option<nat>
    requires at + 2 <= |packet|
  {
    if packet[at] >= 0xC0 then Some(U16(packet[at] - 0xC0, packet[at + 1])) else None
  }

  /** The name and address of the first answer, read after the question: a record of type A and class IN
      whose name is a compression pointer (sections 4.1.3 and 4.1.4 of RFC 1035). */
  function ReadAnswer(packet: Bytes): Option<(Bytes, Address)> {
    if Decoded(packet).Err? || |packet| < 12 || U16(packet[6], packet[7]) == 0 then None
    else
      var at := Decoded(packet).value.end;
      if at + 16 > |packet| || Pointer(packet, at).None? then None
      else
        match Labels(packet, Pointer(packet, at).value)
        case Err(_) => None
        case Ok((labels, _)) =>
          if U16(packet[at + 2], packet[at + 3]) == 1 && U16(packet[at + 4], packet[at + 5]) == 1
             && U16(packet[at + 10], packet[at + 11]) == 4
          then Some((Lowered(JoinDots(labels)), packet[at + 12..at + 16]))
          else None
  }

  /** A client reads from a controlled response the address given away, under the name it asked for, and
      no answer where none was given. */
  lemma AnswerReadBack(packet: Bytes, answers: seq<Address>)
    requires Decoded(packet).Ok? && |answers| <= 1
    ensures ReadAnswer(Response(packet, TransactionId(packet), answers))
         == if answers == [] then None else Some((Decoded(packet).value.hostname, answers[0]))
  {
    hide Decoded, Labels, Lowered, JoinDots, EncodeName, Ascii;
    var q := Decoded(packet).value;
    var r := Response(packet, TransactionId(packet), answers);
    ResponseRepeatsQuestion(packet, answers);
    ResponseParts(packet, answers);
    if answers != [] {
      NameAtTwelve(packet, answers);
    }
  }

  /** The fields of an answer record at `at`. */
  predicate RecordAt(r: Bytes, at: nat, ip: Address) {
    && at + 16 <= |r| && r[at] == 0xC0 && r[at + 1] == 0x0C && U16(r[at + 2], r[at + 3]) == 1
    && U16(r[at + 4], r[at + 5]) == 1 && U16(r[at + 10], r[at + 11]) == 4 && r[at + 12..at + 16] == ip
  }

  lemma AppendedRecord(before: Bytes, ip: Address)
    ensures RecordAt(before + AnswerRecord(ip), |before|, ip)
  {
    RecordParts(ip);
    hide AnswerRecord, U16;
    var record := AnswerRecord(ip);
    var r := before + record;
    assert forall i :: 0 <= i < 16 ==> r[|before| + i] == record[i];
    assert r[|before| + 12..|before| + 16] == record[12..16];
  }

  lemma RecordParts(ip: Address)
    ensures |AnswerRecord(ip)| == 16 && RecordAt(AnswerRecord(ip), 0, ip)
  {}

  lemma HeaderParts(id: Bytes, answers: nat)
    requires |id| == 2 && answers <= 1
    ensures var header := id + Header(0x8180, 1, answers);
      |header| == 12 && U16(header[6], header[7]) == answers
  {}

  /** A response up to its answer. */
  function Preamble(packet: Bytes, answers: nat): Bytes
    requires Decoded(packet).Ok? && 12 <= Decoded(packet).value.end <= |packet| && answers <= 1
  {
    TransactionId(packet) + Header(0x8180, 1, answers) + packet[12..Decoded(packet).value.end]
  }

  lemma PreambleParts(packet: Bytes, answers: nat)
    requires Decoded(packet).Ok? && 12 <= Decoded(packet).value.end <= |packet| && answers <= 1
    ensures |Preamble(packet, answers)| == Decoded(packet).value.end
    ensures U16(Preamble(packet, answers)[6], Preamble(packet, answers)[7]) == answers
  {
    hide Decoded, U16, Header;
    HeaderParts(TransactionId(packet), answers);
    var header := TransactionId(packet) + Header(0x8180, 1, answers);
    assert Preamble(packet, answers)[6] == header[6] && Preamble(packet, answers)[7] == header[7];
  }

  /** The answer count of a response, and the record behind its question. */
  lemma ResponseParts(packet: Bytes, answers: seq<Address>)
    requires Decoded(packet).Ok? && |answers| <= 1
    ensures var r, end := Response(packet, TransactionId(packet), answers), Decoded(packet).value.end;
      && 12 <= end <= |r| && U16(r[6], r[7]) == |answers|
      && (answers != [] ==> RecordAt(r, end, answers[0]))
  {
    hide Decoded, IsQuestion, Header, U16, AnswerRecord, RecordAt, TransactionId;
    var labels := DecodedIsEncoded(packet);
    PreambleParts(packet, |answers|);
    var before := Preamble(packet, |answers|);
    var r := Response(packet, TransactionId(packet), answers);
    if answers == [] {
      assert r == before;
    } else {
      AppendedRecord(before, answers[0]);
      assert r == before + AnswerRecord(answers[0]);
      hide Response, Preamble;
      assert r[6] == before[6] && r[7] == before[7];
    }
  }

  /** The compression pointer of an answer leads to the name of the question. */
  lemma NameAtTwelve(packet: Bytes, answers: seq<Address>)
    requires Decoded(packet).Ok? && |answers| <= 1
    ensures var r := Response(packet, TransactionId(packet), answers);
      Labels(r, 12).Ok? && Lowered(JoinDots(Labels(r, 12).value.0)) == Decoded(packet).value.hostname
  {
    ResponseRepeatsQuestion(packet, answers);
  }
}
