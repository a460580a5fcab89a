/** The wire format of RFC 1035, sections 3.1 and 4.1: what a resolver reads in a message. */
module DnsWire {
  import opened Options

  type Byte = x: int | 0 <= x < 256
  type Label = seq<Byte>

  const HEADER_SIZE: nat := 12

  datatype Name = Name(labels: seq<Label>, next: nat)
  datatype Section<T> = Section(items: seq<T>, next: nat)
  datatype Question = Question(name: seq<Label>, qtype: nat, qclass: nat)
  datatype Record = Record(name: seq<Label>, rtype: nat, rclass: nat, ttl: nat, rdata: seq<Byte>)
  datatype Message = Message(id: nat, flags: nat, questions: seq<Question>, answers: seq<Record>,
                             authority: seq<Record>, additional: seq<Record>)

  function U16(m: seq<Byte>, pos: nat): nat
    requires pos + 2 <= |m|
  {
    256 * (m[pos] as int) + m[pos + 1] as int
  }

  function U32(m: seq<Byte>, pos: nat): nat
    requires pos + 4 <= |m|
  {
    65536 * U16(m, pos) + U16(m, pos + 2)
  }

  // ---- Names -----------------------------------------------------------------

  /** Section 3.1: each label after its length, then a zero byte. */
  function EncodeName(labels: seq<Label>): (bytes: seq<Byte>)
    requires forall i :: 0 <= i < |labels| ==> |labels[i]| < 256
    ensures |bytes| >= 1
  {
    if labels == [] then [0] else [|labels[0]|] + labels[0] + EncodeName(labels[1..])
  }

  predicate LabelSizes(labels: seq<Label>, max: nat) {
    forall i :: 0 <= i < |labels| ==> 1 <= |labels[i]| <= max
  }

  /** Labels of 63 octets or less, 255 octets in all. */
  predicate ValidName(labels: seq<Label>) {
    LabelSizes(labels, 63) && |EncodeName(labels)| <= 255
  }

  /** Labels up to a zero byte or, per section 4.1.4, a pointer to an earlier place. */
  function ReadLabels(m: seq<Byte>, pos: nat, start: nat): Option<Name>
    decreases start, |m| - pos
  {
    if pos >= |m| then None
    else if m[pos] == 0 then Some(Name([], pos + 1))
    else if m[pos] < 64 then
      if pos + 1 + m[pos] > |m| then None
      else
        match ReadLabels(m, pos + 1 + m[pos], start)
        case None => None
        case Some(rest) => Some(Name([m[pos + 1..pos + 1 + m[pos]]] + rest.labels, rest.next))
    else if m[pos] >= 192 && pos + 2 <= |m| && U16(m, pos) - 49152 < start then
      match ReadLabels(m, U16(m, pos) - 49152, U16(m, pos) - 49152)
      case None => None
      case Some(target) => Some(Name(target.labels, pos + 2))
    else None
  }

  function ReadName(m: seq<Byte>, pos: nat): Option<Name> {
    match ReadLabels(m, pos, pos)
    case None => None
    case Some(name) => if ValidName(name.labels) then Some(name) else None
  }

  // ---- Messages --------------------------------------------------------------

  function ReadQuestions(m: seq<Byte>, pos: nat, count: nat): Option<Section<Question>>
    decreases count
  {
    if count == 0 then Some(Section([], pos))
    else
      match ReadName(m, pos)
      case None => None
      case Some(name) =>
        if name.next + 4 > |m| then None
        else
          match ReadQuestions(m, name.next + 4, count - 1)
          case None => None
          case Some(rest) =>
            Some(Section([Question(name.labels, U16(m, name.next), U16(m, name.next + 2))] + rest.items, rest.next))
  }

  function ReadRecords(m: seq<Byte>, pos: nat, count: nat): Option<Section<Record>>
    decreases count
  {
    if count == 0 then Some(Section([], pos))
    else
      match ReadName(m, pos)
      case None => None
      case Some(name) =>
        var p := name.next;
        if p + 10 > |m| || p + 10 + U16(m, p + 8) > |m| then None
        else
          match ReadRecords(m, p + 10 + U16(m, p + 8), count - 1)
          case None => None
          case Some(rest) =>
            Some(Section([Record(name.labels, U16(m, p), U16(m, p + 2), U32(m, p + 4),
                                 m[p + 10..p + 10 + U16(m, p + 8)])]
                         + rest.items, rest.next))
  }

  /** Sections 4.1.1 to 4.1.4: header, then the four counted sections, and nothing after. */
  function ReadMessage(m: seq<Byte>): Option<Message> {
    if |m| < HEADER_SIZE then None
    else
      match ReadQuestions(m, HEADER_SIZE, U16(m, 4))
      case None => None
      case Some(questions) =>
        match ReadRecords(m, questions.next, U16(m, 6))
        case None => None
        case Some(answers) =>
          match ReadRecords(m, answers.next, U16(m, 8))
          case None => None
          case Some(authority) =>
            match ReadRecords(m, authority.next, U16(m, 10))
            case None => None
            case Some(additional) =>
              if additional.next == |m| then
                Some(Message(U16(m, 0), U16(m, 2), questions.items, answers.items, authority.items, additional.items))
              else None
  }

  // ---- Reading what was encoded ------------------------------------------------

  /** `part` stands in m at pos. */
  ghost predicate StandsAt(m: seq<Byte>, pos: nat, part: seq<Byte>) {
    pos + |part| <= |m| && m[pos..pos + |part|] == part
  }

  lemma StandsAtSplit(m: seq<Byte>, pos: nat, a: seq<Byte>, b: seq<Byte>)
    ensures StandsAt(m, pos, a + b) <==> StandsAt(m, pos, a) && StandsAt(m, pos + |a|, b)
  {
    if pos + |a + b| <= |m| {
      var here := m[pos..pos + |a + b|];
      assert here[..|a|] == m[pos..pos + |a|] && here[|a|..] == m[pos + |a|..pos + |a| + |b|];
      assert here == here[..|a|] + here[|a|..];
      assert (a + b)[..|a|] == a && (a + b)[|a|..] == b;
    }
  }

  lemma NameEndStands(m: seq<Byte>, pos: nat)
    requires StandsAt(m, pos, EncodeName([]))
    ensures |EncodeName([])| == 1 && pos < |m| && m[pos] == 0
  {
    assert m[pos] == m[pos..pos + 1][0];
  }

  lemma FirstLabelStands(m: seq<Byte>, pos: nat, labels: seq<Label>)
    requires labels != [] && LabelSizes(labels, 255) && StandsAt(m, pos, EncodeName(labels))
    ensures |EncodeName(labels)| == 1 + |labels[0]| + |EncodeName(labels[1..])|
    ensures pos + 1 + |labels[0]| <= |m| && m[pos] == |labels[0]|
    ensures m[pos + 1..pos + 1 + |labels[0]|] == labels[0]
    ensures StandsAt(m, pos + 1 + |labels[0]|, EncodeName(labels[1..]))
  {
    var l, rest := labels[0], EncodeName(labels[1..]);
    assert EncodeName(labels) == [|l|] + l + rest;
    hide EncodeName;
    StandsAtSplit(m, pos, [|l|] + l, rest);
    StandsAtSplit(m, pos, [|l|], l);
    assert m[pos] == m[pos..pos + 1][0];
  }

  lemma LastLabel(m: seq<Byte>, pos: nat, start: nat)
    requires pos < |m| && m[pos] == 0
    ensures ReadLabels(m, pos, start) == Some(Name([], pos + 1))
  {
  }

  lemma NextLabel(m: seq<Byte>, pos: nat, start: nat, l: Label)
    requires 1 <= |l| <= 63 && pos + 1 + |l| <= |m| && m[pos] == |l| && m[pos + 1..pos + 1 + |l|] == l
    ensures ReadLabels(m, pos, start) ==
            match ReadLabels(m, pos + 1 + |l|, start)
            case None => None
            case Some(rest) => Some(Name([l] + rest.labels, rest.next))
  {
  }

  lemma {:induction false} EncodedNameIsRead(m: seq<Byte>, pos: nat, start: nat, labels: seq<Label>)
    requires LabelSizes(labels, 63) && StandsAt(m, pos, EncodeName(labels))
    ensures ReadLabels(m, pos, start) == Some(Name(labels, pos + |EncodeName(labels)|))
    decreases |labels|
  {
    hide EncodeName, ReadLabels;
    if labels == [] {
      NameEndStands(m, pos);
      LastLabel(m, pos, start);
    } else {
      var l := labels[0];
      FirstLabelStands(m, pos, labels);
      NextLabel(m, pos, start, l);
      EncodedNameIsRead(m, pos + 1 + |l|, start, labels[1..]);
      assert labels == [l] + labels[1..];
    }
  }

  /** A two-byte pointer reads as the name it points to. */
  lemma PointerIsRead(m: seq<Byte>, pos: nat, target: nat, labels: seq<Label>)
    requires target < pos && target < 0x4000 && pos + 2 <= |m| && U16(m, pos) == 49152 + target
    requires LabelSizes(labels, 63) && StandsAt(m, target, EncodeName(labels))
    ensures ReadLabels(m, pos, pos) == Some(Name(labels, pos + 2))
  {
    EncodedNameIsRead(m, target, target, labels);
    assert m[pos] >= 192;
  }
}
