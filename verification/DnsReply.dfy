/** The captive-portal DNS replies: build_dns_response of legacy/rust/prototype/src/wifi.rs
    and buildDnsResponse and extractDomainName of components/domain/include/domain/dns.hpp. */
module DnsReply {
  import opened Options
  import opened DnsWire

  /** The label walk both builders make over the question: the place after the zero byte,
      if the walk meets one.  Length bytes are taken as they are, up to 255. */
  function LabelWalk(query: seq<Byte>, pos: nat): (end: Option<nat>)
    ensures end.Some? ==> pos < end.value <= |query|
    decreases |query| - pos
  {
    if pos >= |query| then None
    else if query[pos] == 0 then Some(pos + 1)
    else LabelWalk(query, pos + 1 + query[pos])
  }

  lemma {:induction false} WalkFindsNameEnd(query: seq<Byte>, pos: nat, labels: seq<Label>)
    requires LabelSizes(labels, 255) && StandsAt(query, pos, EncodeName(labels))
    ensures LabelWalk(query, pos) == Some(pos + |EncodeName(labels)|)
    decreases |labels|
  {
    hide EncodeName;
    if labels == [] {
      NameEndStands(query, pos);
    } else {
      FirstLabelStands(query, pos, labels);
      WalkFindsNameEnd(query, pos + 1 + |labels[0]|, labels[1..]);
    }
  }

  /** A name stands where its first label stands before the rest of it. */
  lemma LabelStands(query: seq<Byte>, pos: nat, l: Label, rest: seq<Label>)
    requires LabelSizes(rest, 255) && pos < |query| && 1 <= |l| == query[pos] && pos + 1 + |l| <= |query|
    requires query[pos + 1..pos + 1 + |l|] == l && StandsAt(query, pos + 1 + |l|, EncodeName(rest))
    ensures LabelSizes([l] + rest, 255) && StandsAt(query, pos, EncodeName([l] + rest))
    ensures |EncodeName([l] + rest)| == 1 + |l| + |EncodeName(rest)|
  {
    assert ([l] + rest)[1..] == rest && EncodeName([l] + rest) == [|l|] + l + EncodeName(rest);
    assert query[pos..pos + 1] == [|l|];
    hide EncodeName;
    StandsAtSplit(query, pos, [|l|], l);
    StandsAtSplit(query, pos, [|l|] + l, EncodeName(rest));
  }

  /** The walk succeeds on nothing but encoded names. */
  lemma {:induction false} WalkedNameStands(query: seq<Byte>, pos: nat) returns (labels: seq<Label>)
    requires LabelWalk(query, pos).Some?
    ensures LabelSizes(labels, 255) && StandsAt(query, pos, EncodeName(labels))
    ensures LabelWalk(query, pos) == Some(pos + |EncodeName(labels)|)
    decreases |query| - pos
  {
    if query[pos] == 0 {
      labels := [];
      assert query[pos..pos + 1] == [0];
    } else {
      var next := pos + 1 + query[pos];
      var rest := WalkedNameStands(query, next);
      labels := [query[pos + 1..next]] + rest;
      LabelStands(query, pos, labels[0], rest);
    }
  }

  /** A question's name stands after the header, with its type and class behind it. */
  ghost predicate AsksFor(query: seq<Byte>, labels: seq<Label>) {
    && LabelSizes(labels, 255) && StandsAt(query, 12, EncodeName(labels))
    && 12 + |EncodeName(labels)| + 4 <= |query|
  }

  // ---- The Rust builder --------------------------------------------------------

  /** x | 0x80 */
  function WithTopBit(x: Byte): (y: Byte)
    ensures y >= 128 && y % 128 == x % 128
  {
    if x >= 128 then x else x + 128
  }

  function RustAnswer(ip: seq<Byte>): seq<Byte> {
    [0xC0, 0x0C, 0x00, 0x01, 0x00, 0x01, 0x00, 0x00, 0x00, 0x78, 0x00, 0x04] + ip
  }

  function RustHeader(query: seq<Byte>): seq<Byte>
    requires |query| >= HEADER_SIZE
  {
    query[..12][2 := WithTopBit(query[2])][3 := WithTopBit(query[3])][6 := 0][7 := 1]
  }

  /** The header, the query up to `end` and the answer. */
  function RustReply(query: seq<Byte>, end: nat, ip: seq<Byte>): seq<Byte>
    requires 12 <= end <= |query|
  {
    RustHeader(query) + query[12..end] + RustAnswer(ip)
  }

  predicate RustAccepts(query: seq<Byte>) {
    |query| >= HEADER_SIZE && LabelWalk(query, 12).Some? && LabelWalk(query, 12).value + 4 <= |query|
  }

  lemma AnswerPushed(resp: seq<Byte>, ip: seq<Byte>)
    ensures resp + [0xC0] + [0x0C] + [0x00, 0x01] + [0x00, 0x01] + [0x00, 0x00, 0x00, 0x78] + [0x00, 0x04] + ip
         == resp + RustAnswer(ip)
  {
  }

  lemma RustAcceptsExactly(query: seq<Byte>)
    ensures RustAccepts(query) <==> |query| >= 12 && exists labels :: AsksFor(query, labels)
  {
    if RustAccepts(query) {
      var labels := WalkedNameStands(query, 12);
      assert AsksFor(query, labels);
    }
    forall labels | AsksFor(query, labels)
      ensures LabelWalk(query, 12) == Some(12 + |EncodeName(labels)|)
    {
      WalkFindsNameEnd(query, 12, labels);
    }
  }

  /** A reply exactly when an encoded name stands in the question with four bytes after it. */
  method BuildDnsResponse(query: seq<Byte>, ip: seq<Byte>) returns (resp: seq<Byte>)
    requires |ip| == 4
    ensures resp != [] <==> |query| >= 12 && exists labels :: AsksFor(query, labels)
    ensures resp != [] <==> RustAccepts(query)
    ensures resp != [] ==> resp == RustReply(query, LabelWalk(query, 12).value + 4, ip)
  {
    RustAcceptsExactly(query);
    hide AsksFor, EncodeName, LabelSizes, StandsAt, RustAnswer;
    if |query| < 12 {
      return [];
    }
    resp := query[..12];
    resp := resp[2 := WithTopBit(resp[2])];
    resp := resp[3 := WithTopBit(resp[3])];
    resp := resp[6 := 0];
    resp := resp[7 := 1];
    var qpos: nat := 12;
    while true
      invariant qpos >= 12 && LabelWalk(query, 12) == LabelWalk(query, qpos)
      decreases |query| - qpos
    {
      if qpos >= |query| {
        return [];
      }
      var labelLen := query[qpos];
      if labelLen == 0 {
        qpos := qpos + 1;
        break;
      }
      qpos := qpos + 1 + labelLen;
    }
    if qpos + 4 > |query| {
      return [];
    }
    qpos := qpos + 4;
    resp := resp + query[12..qpos];
    AnswerPushed(resp, ip);
    resp := resp + [0xC0];
    resp := resp + [0x0C];
    resp := resp + [0x00, 0x01];
    resp := resp + [0x00, 0x01];
    resp := resp + [0x00, 0x00, 0x00, 0x78];
    resp := resp + [0x00, 0x04];
    resp := resp + ip;
  }

  /** A query that asks one question, whatever follows it. */
  ghost predicate AsksOnce(query: seq<Byte>, labels: seq<Label>) {
    && ValidName(labels) && StandsAt(query, 12, EncodeName(labels))
    && 12 + |EncodeName(labels)| + 4 <= |query| && U16(query, 4) == 1
  }

  /** And that has nothing in its authority and additional sections. */
  ghost predicate SingleQuestion(query: seq<Byte>, labels: seq<Label>) {
    AsksOnce(query, labels) && U16(query, 8) == 0 && U16(query, 10) == 0
  }

  lemma NameReadAt(m: seq<Byte>, pos: nat, labels: seq<Label>)
    requires ValidName(labels) && StandsAt(m, pos, EncodeName(labels))
    ensures ReadName(m, pos) == Some(Name(labels, pos + |EncodeName(labels)|))
  {
    EncodedNameIsRead(m, pos, pos, labels);
  }

  /** A message that is a header, the question and something more. */
  lemma QuestionSection(m: seq<Byte>, labels: seq<Label>)
    requires ValidName(labels) && StandsAt(m, 12, EncodeName(labels))
    requires 12 + |EncodeName(labels)| + 4 <= |m|
    ensures var p := 12 + |EncodeName(labels)|;
            ReadQuestions(m, 12, 1) == Some(Section([Question(labels, U16(m, p), U16(m, p + 2))], p + 4))
  {
    hide EncodeName, ReadLabels, ReadName, ReadQuestions;
    NameReadAt(m, 12, labels);
    OneQuestion(m, 12, labels, 12 + |EncodeName(labels)|);
  }

  lemma OneQuestion(m: seq<Byte>, pos: nat, labels: seq<Label>, next: nat)
    requires ReadName(m, pos) == Some(Name(labels, next)) && next + 4 <= |m|
    ensures ReadQuestions(m, pos, 1) == Some(Section([Question(labels, U16(m, next), U16(m, next + 2))], next + 4))
  {
    hide ReadName, U16;
    var question := Question(labels, U16(m, next), U16(m, next + 2));
    assert ReadQuestions(m, next + 4, 0) == Some(Section([], next + 4)) && [question] + [] == [question];
  }

  /** Reading the reply back by RFC 1035 gives the same id and question and exactly one A
      record, whose compressed name is the question's and whose data is the address. */
  lemma RustReplyReadsBack(query: seq<Byte>, labels: seq<Label>, ip: seq<Byte>)
    requires SingleQuestion(query, labels) && |ip| == 4
    ensures RustAccepts(query)
    ensures var p := 12 + |EncodeName(labels)|;
            var flags := 256 * (WithTopBit(query[2]) as int) + WithTopBit(query[3]) as int;
            ReadMessage(RustReply(query, LabelWalk(query, 12).value + 4, ip))
            == Some(Message(U16(query, 0), flags, [Question(labels, U16(query, p), U16(query, p + 2))],
                            [Record(labels, 1, 1, 120, ip)], [], []))
  {
    hide EncodeName, RustReply, RustAnswer, ReadMessage, LabelWalk, WithTopBit, U16, StandsAt;
    var p := 12 + |EncodeName(labels)|;
    WalkFindsNameEnd(query, 12, labels);
    var m := RustReply(query, p + 4, ip);
    RustParts(query, p + 4, ip);
    hide LabelSizes;
    StandsAlso(query, m, p + 4, EncodeName(labels));
    RustParse(m, p, labels, ip);
  }

  /** The copied bytes hold the same words and names. */
  lemma StandsAlso(query: seq<Byte>, m: seq<Byte>, q: nat, part: seq<Byte>)
    requires 12 + |part| <= q <= |query| && q <= |m| && m[12..q] == query[12..q] && StandsAt(query, 12, part)
    ensures StandsAt(m, 12, part)
    ensures forall i: nat :: 12 <= i && i + 2 <= q ==> U16(m, i) == U16(query, i)
  {
    assert query[12..12 + |part|] == query[12..q][..|part|] && m[12..12 + |part|] == m[12..q][..|part|];
    forall i: nat | 12 <= i && i + 2 <= q
      ensures U16(m, i) == U16(query, i)
    {
      assert m[i] == m[12..q][i - 12] && m[i + 1] == m[12..q][i - 11];
      assert query[i] == query[12..q][i - 12] && query[i + 1] == query[12..q][i - 11];
    }
  }

  lemma RustParse(m: seq<Byte>, p: nat, labels: seq<Label>, ip: seq<Byte>)
    requires ValidName(labels) && StandsAt(m, 12, EncodeName(labels)) && p == 12 + |EncodeName(labels)|
    requires |ip| == 4 && |m| == p + 20 && m[p + 4..] == RustAnswer(ip)
    requires U16(m, 4) == 1 && U16(m, 6) == 1 && U16(m, 8) == 0 && U16(m, 10) == 0
    ensures ReadMessage(m) == Some(Message(U16(m, 0), U16(m, 2), [Question(labels, U16(m, p), U16(m, p + 2))],
                                           [Record(labels, 1, 1, 120, ip)], [], []))
  {
    hide EncodeName, RustAnswer, ReadMessage, ReadQuestions, ReadRecords, U16;
    QuestionSection(m, labels);
    AnswerSection(m, p + 4, labels, ip);
    TwoSections(m, Section([Question(labels, U16(m, p), U16(m, p + 2))], p + 4),
                Section([Record(labels, 1, 1, 120, ip)], |m|));
  }

  /** The Rust reply keeps the counts of the later sections and copies none of their records,
      so it can be read exactly when the query counts none: not with an EDNS record. */
  lemma RustReplyParsesExactly(query: seq<Byte>, labels: seq<Label>, ip: seq<Byte>)
    requires AsksOnce(query, labels) && |ip| == 4
    ensures RustAccepts(query)
    ensures ReadMessage(RustReply(query, LabelWalk(query, 12).value + 4, ip)).Some?
       <==> U16(query, 8) == 0 && U16(query, 10) == 0
  {
    hide EncodeName, RustReply, RustAnswer, ReadMessage, LabelWalk, WithTopBit, U16, StandsAt;
    var p := 12 + |EncodeName(labels)|;
    WalkFindsNameEnd(query, 12, labels);
    var m := RustReply(query, p + 4, ip);
    RustParts(query, p + 4, ip);
    StandsAlso(query, m, p + 4, EncodeName(labels));
    if U16(query, 8) == 0 && U16(query, 10) == 0 {
      RustReplyReadsBack(query, labels, ip);
    } else {
      QuestionSection(m, labels);
      AnswerSection(m, p + 4, labels, ip);
      MissingSections(m, p + 4);
    }
  }

  /** Past the end of a message there is no record to read. */
  lemma MissingSections(m: seq<Byte>, next: nat)
    requires |m| >= 12 && U16(m, 4) == 1 && U16(m, 6) == 1 && (U16(m, 8) != 0 || U16(m, 10) != 0)
    requires ReadQuestions(m, 12, 1).Some? && ReadQuestions(m, 12, 1).value.next == next
    requires ReadRecords(m, next, 1).Some? && ReadRecords(m, next, 1).value.next == |m|
    ensures ReadMessage(m).None?
  {
    hide ReadQuestions, U16, ReadRecords;
    NoRecordsAtEnd(m, U16(m, 8));
    NoRecordsAtEnd(m, U16(m, 10));
  }

  lemma NoRecordsAtEnd(m: seq<Byte>, count: nat)
    ensures ReadRecords(m, |m|, count) == if count == 0 then Some(Section([], |m|)) else None
  {
  }

  /** The pieces of the Rust reply, in place. */
  lemma RustParts(query: seq<Byte>, q: nat, ip: seq<Byte>)
    requires 12 <= q <= |query| && |ip| == 4
    ensures var m := RustReply(query, q, ip);
            && |m| == q + 16 && m[12..q] == query[12..q] && m[q..] == RustAnswer(ip)
            && U16(m, 0) == U16(query, 0) && U16(m, 4) == U16(query, 4) && U16(m, 6) == 1
            && U16(m, 8) == U16(query, 8) && U16(m, 10) == U16(query, 10)
            && U16(m, 2) == 256 * (WithTopBit(query[2]) as int) + WithTopBit(query[3]) as int
  {
  }

  /** A message with one question, the given answers and nothing else. */
  lemma TwoSections(m: seq<Byte>, questions: Section<Question>, answers: Section<Record>)
    requires |m| >= 12 && U16(m, 4) == 1 && U16(m, 6) == 1 && U16(m, 8) == 0 && U16(m, 10) == 0
    requires ReadQuestions(m, 12, 1) == Some(questions) && ReadRecords(m, questions.next, 1) == Some(answers)
    ensures ReadMessage(m) == if answers.next == |m| then
              Some(Message(U16(m, 0), U16(m, 2), questions.items, answers.items, [], [])) else None
  {
    assert ReadRecords(m, answers.next, 0) == Some(Section([], answers.next));
  }

  lemma AnswerSection(m: seq<Byte>, q: nat, labels: seq<Label>, ip: seq<Byte>)
    requires ValidName(labels) && StandsAt(m, 12, EncodeName(labels)) && 12 < q <= |m| && |ip| == 4
    requires m[q..] == RustAnswer(ip)
    ensures ReadRecords(m, q, 1) == Some(Section([Record(labels, 1, 1, 120, ip)], |m|))
  {
    var a := m[q..];
    assert forall i :: 0 <= i < 16 ==> m[q + i] == a[i];
    AddressRecord(m, q, labels, 120, ip);
  }

  /** A pointer to the question's name, type, class, time to live and the address. */
  lemma AddressRecord(m: seq<Byte>, q: nat, labels: seq<Label>, ttl: nat, ip: seq<Byte>)
    requires ValidName(labels) && StandsAt(m, 12, EncodeName(labels)) && 12 < q && q + 16 == |m| && |ip| == 4
    requires U16(m, q) == 0xC00C && U16(m, q + 2) == 1 && U16(m, q + 4) == 1
    requires U32(m, q + 6) == ttl && U16(m, q + 10) == 4 && m[q + 12..] == ip
    ensures ReadRecords(m, q, 1) == Some(Section([Record(labels, 1, 1, ttl, ip)], |m|))
  {
    PointerIsRead(m, q, 12, labels);
    assert m[q + 12..q + 16] == ip;
    hide U16, U32, EncodeName, ReadLabels;
    assert ReadName(m, q) == Some(Name(labels, q + 2));
    var record := Record(labels, 1, 1, ttl, ip);
    assert ReadRecords(m, q + 16, 0) == Some(Section([], q + 16)) && [record] + [] == [record];
  }

  // ---- The C++ builder ---------------------------------------------------------

  function CppAnswer(ip: seq<Byte>): seq<Byte> {
    [0xC0, 0x0C, 0x00, 0x01, 0x00, 0x01, 0x00, 0x00, 0x00, 0x3C, 0x00, 0x04] + ip
  }

  /** Header and name only: the four bytes of QTYPE and QCLASS are checked for, not copied. */
  function CppReply(query: seq<Byte>, nameEnd: nat, ip: seq<Byte>): seq<Byte>
    requires 12 <= nameEnd <= |query|
  {
    [query[0], query[1], 0x81, 0x80, query[4], query[5], 0x00, 0x01, 0x00, 0x00, 0x00, 0x00]
    + query[12..nameEnd] + CppAnswer(ip)
  }

  predicate CppAccepts(query: seq<Byte>, capacity: nat) {
    && |query| >= HEADER_SIZE && U16(query, 4) != 0
    && LabelWalk(query, 12).Some? && LabelWalk(query, 12).value + 4 <= |query|
    && LabelWalk(query, 12).value + 16 <= capacity
  }

  /** The conditions, in terms of the name that is asked for. */
  lemma CppAcceptsExactly(query: seq<Byte>, capacity: nat)
    ensures CppAccepts(query, capacity)
       <==> |query| >= 12 && U16(query, 4) != 0
            && exists labels :: AsksFor(query, labels) && 12 + |EncodeName(labels)| + 16 <= capacity
  {
    if CppAccepts(query, capacity) {
      var labels := WalkedNameStands(query, 12);
      assert AsksFor(query, labels);
    }
    forall labels | AsksFor(query, labels)
      ensures LabelWalk(query, 12) == Some(12 + |EncodeName(labels)|)
    {
      WalkFindsNameEnd(query, 12, labels);
    }
  }

  /** What a resolver finds in the reply: the id of its query, a response without error, its
      own question count, one answer, the name it asked for, and the address under that name. */
  ghost predicate AnswersQuery(m: seq<Byte>, query: seq<Byte>, labels: seq<Label>, ip: seq<Byte>)
    requires |query| >= 12 && LabelSizes(labels, 255)
  {
    && |m| >= 12 && U16(m, 0) == U16(query, 0) && U16(m, 2) == 0x8180
    && U16(m, 4) == U16(query, 4) && U16(m, 6) == 1 && U16(m, 8) == 0 && U16(m, 10) == 0
    && StandsAt(m, 12, EncodeName(labels))
    && ReadRecords(m, 12 + |EncodeName(labels)|, 1) == Some(Section([Record(labels, 1, 1, 60, ip)], |m|))
  }

  lemma CppReplyAnswers(query: seq<Byte>, labels: seq<Label>, ip: seq<Byte>)
    requires ValidName(labels) && StandsAt(query, 12, EncodeName(labels)) && |ip| == 4
    ensures LabelWalk(query, 12) == Some(12 + |EncodeName(labels)|)
    ensures AnswersQuery(CppReply(query, 12 + |EncodeName(labels)|, ip), query, labels, ip)
  {
    hide EncodeName, CppReply, LabelWalk, ReadRecords, StandsAt, U16;
    var p := 12 + |EncodeName(labels)|;
    WalkFindsNameEnd(query, 12, labels);
    hide LabelSizes;
    var m := CppReply(query, p, ip);
    CppParts(query, p, ip);
    StandsAlso(query, m, p, EncodeName(labels));
    CppAnswerRead(m, p, labels, ip);
  }

  lemma CppAnswerRead(m: seq<Byte>, p: nat, labels: seq<Label>, ip: seq<Byte>)
    requires ValidName(labels) && StandsAt(m, 12, EncodeName(labels)) && 12 < p && |ip| == 4
    requires |m| == p + 16 && m[p..] == CppAnswer(ip)
    ensures ReadRecords(m, p, 1) == Some(Section([Record(labels, 1, 1, 60, ip)], |m|))
  {
    var a := m[p..];
    assert forall i :: 0 <= i < 16 ==> m[p + i] == a[i];
    AddressRecord(m, p, labels, 60, ip);
  }

  /** Nonzero exactly when QDCOUNT is nonzero, an encoded name stands in the question with
      four bytes after it, and the reply fits; then it carries the query's id, its name and
      the address, although it leaves out the four bytes. */
  method BuildDnsResponseInto(query: seq<Byte>, response: array<Byte>, answerIp: seq<Byte>) returns (written: nat)
    requires |answerIp| == 4
    modifies response
    ensures written != 0 <==> CppAccepts(query, response.Length)
    ensures written != 0 <==> |query| >= 12 && U16(query, 4) != 0 && exists labels ::
              AsksFor(query, labels) && 12 + |EncodeName(labels)| + 16 <= response.Length
    ensures written != 0 ==> written <= response.Length
                             && response[..written] == CppReply(query, LabelWalk(query, 12).value, answerIp)
    ensures written != 0 ==> forall labels :: ValidName(labels) && StandsAt(query, 12, EncodeName(labels)) ==>
              AnswersQuery(response[..written], query, labels, answerIp)
    ensures response[written..] == old(response[written..])
  {
    CppAcceptsExactly(query, response.Length);
    hide AsksFor, AnswersQuery, EncodeName, LabelSizes, StandsAt, CppReply, LabelWalk;
    if |query| < 12 {
      return 0;
    }
    if U16(query, 4) == 0 {
      return 0;
    }
    var qptr := FindNameEnd(query);
    if qptr + 4 > |query| {
      return 0;
    }
    var total := qptr + 16;
    if total > response.Length {
      return 0;
    }
    written := total;
    WriteReply(query, qptr, response, answerIp);
    forall labels | ValidName(labels) && StandsAt(query, 12, EncodeName(labels))
      ensures AnswersQuery(response[..written], query, labels, answerIp)
    {
      CppReplyAnswers(query, labels, answerIp);
    }
  }

  method FindNameEnd(query: seq<Byte>) returns (qptr: nat)
    requires |query| >= 12
    ensures if LabelWalk(query, 12).Some? then qptr == LabelWalk(query, 12).value else qptr >= |query|
  {
    qptr := 12;
    while qptr < |query|
      invariant qptr >= 12 && LabelWalk(query, 12) == LabelWalk(query, qptr)
    {
      var len := query[qptr];
      if len == 0 {
        qptr := qptr + 1;
        return;
      }
      qptr := qptr + 1 + len;
    }
  }

  method WriteReply(query: seq<Byte>, nameEnd: nat, response: array<Byte>, answerIp: seq<Byte>)
    requires 12 <= nameEnd <= |query| && |answerIp| == 4 && nameEnd + 16 <= response.Length
    modifies response
    ensures response[..nameEnd + 16] == CppReply(query, nameEnd, answerIp)
    ensures response[nameEnd + 16..] == old(response[nameEnd + 16..])
  {
    var header := [query[0], query[1], 0x81, 0x80, query[4], query[5], 0x00, 0x01, 0x00, 0x00, 0x00, 0x00];
    forall i | 0 <= i < 12 {
      response[i] := header[i];
    }
    forall i | 12 <= i < nameEnd {
      response[i] := query[i];
    }
    var answer := CppAnswer(answerIp);
    forall i | 0 <= i < 16 {
      response[nameEnd + i] := answer[i];
    }
  }

  method CopyInto(response: array<Byte>, at: nat, part: seq<Byte>)
    requires at + |part| <= response.Length
    modifies response
    ensures response[..at + |part|] == old(response[..at]) + part
    ensures response[at + |part|..] == old(response[at + |part|..])
  {
    forall i | 0 <= i < |part| {
      response[at + i] := part[i];
    }
  }

  /** The C++ reply to a well-formed query reads as a message only for addresses x.0.1.y,
      and never as one that answers the question. */
  lemma CppReplyReadsBackOnlyByAccident(query: seq<Byte>, labels: seq<Label>, ip: seq<Byte>)
    requires SingleQuestion(query, labels) && |ip| == 4
    ensures LabelWalk(query, 12) == Some(12 + |EncodeName(labels)|)
    ensures var reply := ReadMessage(CppReply(query, 12 + |EncodeName(labels)|, ip));
            && (reply.Some? <==> ip[1] == 0 && ip[2] == 1)
            && (reply.Some? ==> |reply.value.answers| == 1 && reply.value.answers[0].rtype == 256
                                && |reply.value.answers[0].rdata| == 1)
  {
    var p := 12 + |EncodeName(labels)|;
    WalkFindsNameEnd(query, 12, labels);
    var m := CppReply(query, p, ip);
    CppParts(query, p, ip);
    StandsAlso(query, m, p, EncodeName(labels));
    hide EncodeName, CppReply, CppAnswer, ReadMessage, LabelWalk, LabelSizes;
    CppParse(m, p, labels, ip);
  }

  lemma CppParse(m: seq<Byte>, p: nat, labels: seq<Label>, ip: seq<Byte>)
    requires ValidName(labels) && StandsAt(m, 12, EncodeName(labels)) && p == 12 + |EncodeName(labels)|
    requires |ip| == 4 && |m| == p + 16 && m[p..] == CppAnswer(ip)
    requires U16(m, 4) == 1 && U16(m, 6) == 1 && U16(m, 8) == 0 && U16(m, 10) == 0
    ensures ReadMessage(m).Some? <==> ip[1] == 0 && ip[2] == 1
    ensures var reply := ReadMessage(m);
            reply.Some? ==> |reply.value.answers| == 1 && reply.value.answers[0].rtype == 256
                            && |reply.value.answers[0].rdata| == 1
  {
    hide EncodeName, CppAnswer, ReadMessage, ReadQuestions, ReadRecords, U16;
    QuestionSection(m, labels);
    ShiftedAnswer(m, p, ip);
    if ReadRecords(m, p + 4, 1).Some? {
      TwoSections(m, Section([Question(labels, U16(m, p), U16(m, p + 2))], p + 4), ReadRecords(m, p + 4, 1).value);
    } else {
      NoAnswerNoMessage(m, p + 4);
    }
  }

  lemma CppParts(query: seq<Byte>, p: nat, ip: seq<Byte>)
    requires 12 <= p <= |query| && |ip| == 4
    ensures var m := CppReply(query, p, ip);
            && |m| == p + 16 && m[12..p] == query[12..p] && m[p..] == CppAnswer(ip)
            && U16(m, 0) == U16(query, 0) && U16(m, 2) == 0x8180
            && U16(m, 4) == U16(query, 4) && U16(m, 6) == 1 && U16(m, 8) == 0 && U16(m, 10) == 0
  {
  }

  lemma NoAnswerNoMessage(m: seq<Byte>, next: nat)
    requires |m| >= 12 && U16(m, 4) == 1 && U16(m, 6) == 1
    requires ReadQuestions(m, 12, 1).Some? && ReadQuestions(m, 12, 1).value.next == next
    requires ReadRecords(m, next, 1).None?
    ensures ReadMessage(m).None?
  {
  }

  /** The question eats the first four bytes of the answer; the rest reads four bytes off. */
  lemma ShiftedAnswer(m: seq<Byte>, p: nat, ip: seq<Byte>)
    requires p + 16 == |m| && |ip| == 4 && m[p..] == CppAnswer(ip)
    ensures var r := ReadRecords(m, p + 4, 1);
            && (r.Some? && r.value.next == |m| <==> ip[1] == 0 && ip[2] == 1)
            && (r.Some? ==> r.value.next <= |m| && |r.value.items| == 1 && r.value.items[0].rtype == 256
                            && (r.value.next == |m| ==> |r.value.items[0].rdata| == 1))
  {
    var a := m[p..];
    assert forall i :: 0 <= i < 16 ==> m[p + i] == a[i];
    assert ReadLabels(m, p + 4, p + 4) == Some(Name([], p + 5));
    assert U16(m, p + 5) == 256 && U16(m, p + 13) == 256 * (ip[1] as int) + ip[2] as int;
    assert ReadName(m, p + 4) == Some(Name([], p + 5));
  }

  // ---- The name extractor --------------------------------------------------------

  const DOT: Byte := 46

  function DotJoin(labels: seq<Label>, first: bool): seq<Byte> {
    if labels == [] then [] else (if first then [] else [DOT]) + labels[0] + DotJoin(labels[1..], false)
  }

  /** The walk of the extractor, with the characters written so far. */
  function Extract(query: seq<Byte>, pos: nat, acc: seq<Byte>, first: bool, capacity: nat): Option<seq<Byte>>
    decreases |query| - pos
  {
    if pos >= |query| || query[pos] == 0 then Some(acc)
    else if pos + 1 + query[pos] > |query| then None
    else if !first && |acc| + 1 >= capacity then None
    else
      var dotted := if first then acc else acc + [DOT];
      if |dotted| + query[pos] >= capacity then None
      else Extract(query, pos + 1 + query[pos], dotted + query[pos + 1..pos + 1 + query[pos]], false, capacity)
  }

  function Dotted(acc: seq<Byte>, first: bool): seq<Byte> {
    if first then acc else acc + [DOT]
  }

  /** One label of the walk: it fits in the query and, after its dot, in the output. */
  lemma ExtractTurn(query: seq<Byte>, pos: nat, acc: seq<Byte>, first: bool, capacity: nat)
    requires pos < |query| && query[pos] != 0
    ensures var next := pos + 1 + query[pos];
            Extract(query, pos, acc, first, capacity)
            == if next > |query| || |Dotted(acc, first)| + query[pos] >= capacity then None
               else Extract(query, next, Dotted(acc, first) + query[pos + 1..next], false, capacity)
  {
  }

  lemma ExtractEnds(query: seq<Byte>, pos: nat, acc: seq<Byte>, first: bool, capacity: nat)
    requires pos >= |query| || query[pos] == 0
    ensures Extract(query, pos, acc, first, capacity) == Some(acc)
  {
  }

  method ExtractDomainName(query: seq<Byte>, outBuf: array<Byte>) returns (written: nat)
    modifies outBuf
    ensures |query| < HEADER_SIZE || outBuf.Length == 0 ==> written == 0 && outBuf[..] == old(outBuf[..])
    ensures |query| >= HEADER_SIZE && outBuf.Length > 0 ==>
              var name := Extract(query, 12, [], true, outBuf.Length);
              && (name.None? ==> written == 0 && outBuf[0] == 0)
              && (name.Some? ==> written == |name.value| < outBuf.Length
                                 && outBuf[..written] == name.value && outBuf[written] == 0)
  {
    hide Extract;
    written := 0;
    if |query| < 12 || outBuf.Length == 0 {
      return;
    }
    var qptr: nat := 12;
    var first := true;
    while qptr < |query|
      invariant written < outBuf.Length
      invariant Extract(query, 12, [], true, outBuf.Length)
             == Extract(query, qptr, outBuf[..written], first, outBuf.Length)
    {
      var len := query[qptr];
      if len == 0 {
        break;
      }
      ghost var acc := outBuf[..written];
      ExtractTurn(query, qptr, acc, first, outBuf.Length);
      if qptr + 1 + len > |query| {
        outBuf[0] := 0;
        return 0;
      }
      if !first {
        if written + 1 >= outBuf.Length {
          outBuf[0] := 0;
          return 0;
        }
        outBuf[written] := DOT;
        written := written + 1;
      }
      ghost var dotted := outBuf[..written];
      assert dotted == Dotted(acc, first);
      first := false;
      if written + len >= outBuf.Length {
        outBuf[0] := 0;
        return 0;
      }
      CopyInto(outBuf, written, query[qptr + 1..qptr + 1 + len]);
      written := written + len;
      qptr := qptr + 1 + len;
    }
    ExtractEnds(query, qptr, outBuf[..written], first, outBuf.Length);
    outBuf[written] := 0;
  }

  lemma NothingToJoin(acc: seq<Byte>, first: bool)
    ensures acc + DotJoin([], first) == acc
  {
  }

  lemma DotJoinStep(labels: seq<Label>, acc: seq<Byte>, first: bool)
    requires labels != []
    ensures acc + DotJoin(labels, first) == (Dotted(acc, first) + labels[0]) + DotJoin(labels[1..], false)
  {
    var dot, rest := if first then [] else [DOT], DotJoin(labels[1..], false);
    assert DotJoin(labels, first) == dot + labels[0] + rest;
    assert Dotted(acc, first) == acc + dot;
    hide DotJoin, Dotted;
    Regroup(acc, dot, labels[0], rest);
  }

  lemma Regroup<T>(a: seq<T>, b: seq<T>, c: seq<T>, d: seq<T>)
    ensures a + (b + c + d) == ((a + b) + c) + d
  {
  }

  lemma {:induction false} ExtractJoins(query: seq<Byte>, pos: nat, labels: seq<Label>, acc: seq<Byte>, first: bool,
                                        capacity: nat)
    requires LabelSizes(labels, 255) && StandsAt(query, pos, EncodeName(labels)) && |acc| < capacity
    ensures var full := acc + DotJoin(labels, first);
            Extract(query, pos, acc, first, capacity) == if |full| < capacity then Some(full) else None
    decreases |labels|
  {
    hide EncodeName, Extract, DotJoin;
    if labels == [] {
      NameEndStands(query, pos);
      ExtractEnds(query, pos, acc, first, capacity);
      NothingToJoin(acc, first);
    } else {
      var l, next := labels[0], Dotted(acc, first) + labels[0];
      FirstLabelStands(query, pos, labels);
      ExtractTurn(query, pos, acc, first, capacity);
      DotJoinStep(labels, acc, first);
      if |next| < capacity {
        ExtractJoins(query, pos + 1 + |l|, labels[1..], next, false, capacity);
      }
    }
  }

  /** For every encoded label list the extractor gives the dot-joined labels, if they and
      their terminator fit. */
  lemma ExtractedNameIsDotJoined(query: seq<Byte>, labels: seq<Label>, capacity: nat)
    requires LabelSizes(labels, 255) && StandsAt(query, 12, EncodeName(labels)) && capacity > 0
    ensures Extract(query, 12, [], true, capacity)
         == if |DotJoin(labels, true)| < capacity then Some(DotJoin(labels, true)) else None
  {
    ExtractJoins(query, 12, labels, [], true, capacity);
    assert [] + DotJoin(labels, true) == DotJoin(labels, true);
  }
}
