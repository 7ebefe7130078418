/**
 * A complete DNS message (section 4.1 of RFC 1035): the header, then the
 * question section, then the answer section. Authority and additional
 * records are carried but never written and never read.
 */
module MessageCodec {
  import opened Wire
  import opened HeaderCodec
  import opened NameCodec
  import opened RecordCodec

  datatype Message = Message(
    header: Header,
    questions: seq<Question>,
    answers: seq<Record>,
    authorities: seq<Record>,
    additionals: seq<Record>)

  /** `DnsMessage::new`: a fresh query header and four empty sections. */
  function NewMessage(id: u16): (m: Message)
    ensures m.header == NewHeader(id)
    ensures m.questions == [] && m.answers == [] && m.authorities == [] && m.additionals == []
  {
    Message(NewHeader(id), [], [], [], [])
  }

  /** `DnsMessage::new_query`: one question of class IN, announced by a question count of 1. */
  function NewQuery(id: u16, name: seq<byte>, qtype: RecordType): (m: Message)
    ensures m.header == NewHeader(id).(qdcount := 1) && |m.questions| == m.header.qdcount
    ensures m.questions == [NewQuestion(name, qtype)]
    ensures m.answers == [] && m.authorities == [] && m.additionals == []
  {
    var m := NewMessage(id);
    m.(header := m.header.(qdcount := 1), questions := [NewQuestion(name, qtype)])
  }

  /**
   * `DnsMessage::new_response`: the query with qr and ra set and its record
   * sections emptied. Every other header field, the answer count included,
   * is the query's.
   */
  function NewResponse(query: Message): (m: Message)
    ensures m.header == query.header.(qr := true, ra := true)
    ensures m.questions == query.questions
    ensures m.answers == [] && m.authorities == [] && m.additionals == []
  {
    query.(header := query.header.(qr := true, ra := true), answers := [], authorities := [], additionals := [])
  }

  // ---------------------------------------------------------------------------
  // Serialization (`DnsMessage::to_bytes`)
  // ---------------------------------------------------------------------------

  /** Every question's name encodes. */
  predicate QuestionNamesEncode(qs: seq<Question>)
  {
    forall i :: 0 <= i < |qs| ==> NameBytes(qs[i].name).Ok?
  }

  /** Every record's name encodes. */
  predicate RecordNamesEncode(rs: seq<Record>)
  {
    forall i :: 0 <= i < |rs| ==> NameBytes(rs[i].name).Ok?
  }

  /** The written size of a question section: each name takes two bytes more than its text, then four bytes of fields. */
  function QuestionsSize(qs: seq<Question>): nat
  {
    if qs == [] then 0 else |qs[0].name| + 6 + QuestionsSize(qs[1..])
  }

  /** The written size of a record section: each name, ten bytes of fields, then the data. */
  function RecordsSize(rs: seq<Record>): nat
  {
    if rs == [] then 0 else |rs[0].name| + 12 + |rs[0].data| + RecordsSize(rs[1..])
  }

  /** The questions written one after another; `QuestionsBytesOk` says when it fails. */
  function QuestionsBytes(qs: seq<Question>): (r: Result<seq<byte>>)
    ensures r.Err? ==> r.error == LabelTooLong
    ensures r.Ok? ==> |r.value| == QuestionsSize(qs)
    decreases |qs|
  {
    if qs == [] then Ok([])
    else
      var b :- QuestionBytes(qs[0]);
      Prepend(b, QuestionsBytes(qs[1..]))
  }

  /** Writing a question section fails exactly when some name does not encode. */
  lemma {:induction false} QuestionsBytesOk(qs: seq<Question>)
    ensures QuestionsBytes(qs).Ok? <==> QuestionNamesEncode(qs)
    decreases |qs|
  {
    if qs != [] {
      QuestionsBytesOk(qs[1..]);
      assert forall i :: 0 < i < |qs| ==> qs[i] == qs[1..][i - 1];
    }
  }

  /** The records written one after another; `RecordsBytesOk` says when it fails. */
  function RecordsBytes(rs: seq<Record>): (r: Result<seq<byte>>)
    ensures r.Err? ==> r.error == LabelTooLong
    ensures r.Ok? ==> |r.value| == RecordsSize(rs)
    decreases |rs|
  {
    if rs == [] then Ok([])
    else
      var b :- RecordBytes(rs[0]);
      Prepend(b, RecordsBytes(rs[1..]))
  }

  /** Writing a record section fails exactly when some name does not encode. */
  lemma {:induction false} RecordsBytesOk(rs: seq<Record>)
    ensures RecordsBytes(rs).Ok? <==> RecordNamesEncode(rs)
    decreases |rs|
  {
    if rs != [] {
      RecordsBytesOk(rs[1..]);
      assert forall i :: 0 < i < |rs| ==> rs[i] == rs[1..][i - 1];
    }
  }

  /**
   * The message's bytes: the header, the questions, the answers. Writing
   * fails (the source panics) exactly when a name in those two sections
   * does not encode; the authority and additional sections are not written.
   */
  function MessageBytes(m: Message): (r: Result<seq<byte>>)
    ensures r.Err? ==> r.error == LabelTooLong
    ensures r.Ok? ==> |r.value| == HeaderSize + QuestionsSize(m.questions) + RecordsSize(m.answers)
  {
    var qb :- QuestionsBytes(m.questions);
    Prepend(HeaderBytes(m.header) + qb, RecordsBytes(m.answers))
  }

  /** Writing a message fails exactly when a question or answer name does not encode. */
  lemma MessageBytesOk(m: Message)
    ensures MessageBytes(m).Ok? <==> QuestionNamesEncode(m.questions) && RecordNamesEncode(m.answers)
  {
    QuestionsBytesOk(m.questions);
    RecordsBytesOk(m.answers);
  }

  /** A written message starts with its header. */
  lemma MessageStartsWithHeader(m: Message)
    requires MessageBytes(m).Ok?
    ensures MessageBytes(m).value[..HeaderSize] == HeaderBytes(m.header)
  {
    var qb := QuestionsBytes(m.questions).value;
    assert MessageBytes(m).value == HeaderBytes(m.header) + (qb + RecordsBytes(m.answers).value);
  }

  /** `DnsMessage::to_bytes`: the header, then each question, then each answer, appended in turn. */
  method MessageToBytes(m: Message) returns (r: Result<seq<byte>>)
    ensures r == MessageBytes(m)
  {
    var bytes := HeaderBytes(m.header);
    for i := 0 to |m.questions|
      invariant Prepend(HeaderBytes(m.header), QuestionsBytes(m.questions))
             == Prepend(bytes, QuestionsBytes(m.questions[i..]))
    {
      var qb := QuestionBytes(m.questions[i]);
      if qb.Err? {
        return Err(qb.error);
      }
      PrependPrepend(bytes, qb.value, QuestionsBytes(m.questions[i + 1..]));
      assert m.questions[i..][1..] == m.questions[i + 1..];
      bytes := bytes + qb.value;
    }
    assert QuestionsBytes(m.questions[|m.questions|..]) == Ok([]);
    ghost var start := bytes;
    for i := 0 to |m.answers|
      invariant QuestionsBytes(m.questions).Ok?
      invariant start == HeaderBytes(m.header) + QuestionsBytes(m.questions).value
      invariant Prepend(start, RecordsBytes(m.answers)) == Prepend(bytes, RecordsBytes(m.answers[i..]))
    {
      var ab := RecordBytes(m.answers[i]);
      if ab.Err? {
        return Err(ab.error);
      }
      PrependPrepend(bytes, ab.value, RecordsBytes(m.answers[i + 1..]));
      assert m.answers[i..][1..] == m.answers[i + 1..];
      bytes := bytes + ab.value;
    }
    assert RecordsBytes(m.answers[|m.answers|..]) == Ok([]);
    assert bytes + [] == bytes;
    return Ok(bytes);
  }

  /** The authority and additional sections have no effect on the bytes written. */
  lemma OnlyQuestionsAndAnswersWritten(m: Message, authorities: seq<Record>, additionals: seq<Record>)
    ensures MessageBytes(m.(authorities := authorities, additionals := additionals)) == MessageBytes(m)
  {
  }

  // ---------------------------------------------------------------------------
  // Parsing (`DnsMessage::from_bytes`)
  // ---------------------------------------------------------------------------

  /** A question read and the offset just past it. */
  datatype QuestionAt = QuestionAt(question: Question, next: nat)

  /**
   * One pass of the question loop at `pos`. Strict: a question that starts
   * past the end, a name that does not decode, fewer than four bytes for
   * its type and class, an unknown type or a class other than IN is an error.
   */
  function ScanQuestion(data: seq<byte>, pos: nat): (r: Result<QuestionAt>)
    ensures r.Ok? ==> r.value.next <= |data|
  {
    if pos >= |data| then Err(QuestionTruncated)
    else
      var nm :- DecodedName(data, pos);
      if nm.next + 4 > |data| then Err(QuestionIncomplete)
      else
        var qtype := TypeFromU16(ReadU16(data, nm.next));
        var qclass := ClassFromU16(ReadU16(data, nm.next + 2));
        if qtype.None? then Err(BadQuestionType)
        else if qclass.None? then Err(BadQuestionClass)
        else Ok(QuestionAt(Question(nm.name, qtype.value, qclass.value), nm.next + 4))
  }

  /** The questions read and the offset just past them. */
  datatype Section = Section(questions: seq<Question>, next: nat)

  /** One pass of the question loop at each offset of `data`. */
  function QuestionReader(data: seq<byte>): nat -> Result<QuestionAt>
  {
    (pos: nat) => ScanQuestion(data, pos)
  }

  /**
   * The question loop driven by a one-pass reader: `n` passes from `pos`
   * on, each starting where the last ended; the first failing pass fails
   * the loop.
   */
  function QuestionLoop(scan: nat -> Result<QuestionAt>, pos: nat, n: nat): (r: Result<Section>)
    ensures r.Ok? ==> |r.value.questions| == n
    decreases n
  {
    if n == 0 then Ok(Section([], pos))
    else
      var q :- scan(pos);
      var rest :- QuestionLoop(scan, q.next, n - 1);
      Ok(Section([q.question] + rest.questions, rest.next))
  }

  /** `n` questions, one after another, from `pos` on. */
  function ParseQuestions(data: seq<byte>, pos: nat, n: nat): (r: Result<Section>)
    ensures r.Ok? ==> |r.value.questions| == n
  {
    QuestionLoop(QuestionReader(data), pos, n)
  }

  /** What one pass of the answer loop finds: the end of the section, or an entry and the offset after it. */
  datatype AnswerAt = Stop | Found(kept: seq<Record>, next: nat)

  /**
   * One pass of the answer loop at `pos`. Lenient: running out of bytes
   * for a name, for the ten fixed bytes or for the data ends the section;
   * an entry of unknown type or class is read but not kept. Only a name
   * that does not decode is an error.
   */
  function ScanAnswer(data: seq<byte>, pos: nat): (r: Result<AnswerAt>)
    ensures r.Ok? && r.value.Found? ==> |r.value.kept| <= 1 && r.value.next <= |data|
  {
    if pos >= |data| then Ok(Stop)
    else
      var nm :- DecodedName(data, pos);
      if nm.next + 10 > |data| then Ok(Stop)
      else
        var start := nm.next + 10;
        var rdlength := ReadU16(data, nm.next + 8);
        if start + rdlength > |data| then Ok(Stop)
        else
          var rtype := TypeFromU16(ReadU16(data, nm.next));
          var rclass := ClassFromU16(ReadU16(data, nm.next + 2));
          var kept := if rtype.Some? && rclass.Some? then
            [Record(nm.name, rtype.value, rclass.value, ReadU32(data, nm.next + 4), data[start..start + rdlength])]
          else [];
          Ok(Found(kept, start + rdlength))
  }

  /** One pass of the answer loop at each offset of `data`. */
  function AnswerReader(data: seq<byte>): nat -> Result<AnswerAt>
  {
    (pos: nat) => ScanAnswer(data, pos)
  }

  /**
   * The answer loop driven by a one-pass reader: at most `n` passes from
   * `pos` on, each starting where the last ended, keeping what each finds;
   * a pass that finds the end leaves the loop, a failing pass fails it.
   */
  function AnswerLoop(scan: nat -> Result<AnswerAt>, pos: nat, n: nat): (r: Result<seq<Record>>)
    ensures r.Err? ==> exists p :: scan(p) == Err(r.error)
    decreases n
  {
    if n == 0 then Ok([])
    else
      var entry :- scan(pos);
      match entry
      case Stop => Ok([])
      case Found(kept, next) => Prepend(kept, AnswerLoop(scan, next, n - 1))
  }

  /** At most `n` answers, one entry after another, from `pos` on; only a name that does not decode fails. */
  function ParseAnswers(data: seq<byte>, pos: nat, n: nat): (r: Result<seq<Record>>)
    ensures r.Ok? ==> |r.value| <= n
    ensures r.Err? ==> NameDecodeError(r.error)
  {
    AnswersBounded(data, pos, n);
    AnswerLoop(AnswerReader(data), pos, n)
  }

  /** The answer loop keeps at most one record per pass. */
  lemma {:induction false} AnswersBounded(data: seq<byte>, pos: nat, n: nat)
    ensures AnswerLoop(AnswerReader(data), pos, n).Ok? ==> |AnswerLoop(AnswerReader(data), pos, n).value| <= n
    decreases n
  {
    if n > 0 {
      var entry := ScanAnswer(data, pos);
      if entry.Ok? && entry.value.Found? {
        AnswersBounded(data, entry.value.next, n - 1);
      }
    }
  }

  /**
   * A whole message: fewer than 12 bytes is an error; otherwise the header,
   * exactly as many questions as it announces and at most as many answers.
   */
  function ParseMessage(data: seq<byte>): (r: Result<Message>)
    ensures |data| < HeaderSize ==> r == Err(MessageTooShort)
    ensures r.Ok? ==> HeaderFromBytes(data) == Ok(r.value.header)
    ensures r.Ok? ==> |r.value.questions| == r.value.header.qdcount
    ensures r.Ok? ==> |r.value.answers| <= r.value.header.ancount
    ensures r.Ok? ==> r.value.authorities == [] && r.value.additionals == []
  {
    if |data| < HeaderSize then Err(MessageTooShort)
    else
      var header := HeaderFromBytes(data).value;
      var section :- ParseQuestions(data, HeaderSize, header.qdcount);
      var answers :- ParseAnswers(data, section.next, header.ancount);
      Ok(Message(header, section.questions, answers, [], []))
  }

  /** One pass of the question loop moves its question from the loop still to run to the questions read. */
  lemma QuestionStep(data: seq<byte>, pos: nat, k: nat, qs: seq<Question>)
    requires k > 0
    ensures ScanQuestion(data, pos).Err? ==>
      PrependQuestions(qs, ParseQuestions(data, pos, k)) == Err(ScanQuestion(data, pos).error)
    ensures ScanQuestion(data, pos).Ok? ==>
      PrependQuestions(qs, ParseQuestions(data, pos, k))
      == PrependQuestions(qs + [ScanQuestion(data, pos).value.question],
                          ParseQuestions(data, ScanQuestion(data, pos).value.next, k - 1))
  {
    var scan := ScanQuestion(data, pos);
    if scan.Ok? {
      var rest := ParseQuestions(data, scan.value.next, k - 1);
      if rest.Ok? {
        assert qs + [scan.value.question] + rest.value.questions
            == qs + ([scan.value.question] + rest.value.questions);
      }
    }
  }

  /** The body of the question loop of `DnsMessage::from_bytes`, step by step: the statement form of `ScanQuestion`. */
  method ReadQuestion(data: seq<byte>, offset: nat) returns (r: Result<QuestionAt>)
    ensures r == ScanQuestion(data, offset)
  {
    if offset >= |data| {
      return Err(QuestionTruncated);
    }
    var name := DecodeName(data, offset);
    if name.Err? {
      return Err(name.error);
    }
    var next := name.value.next;
    if next + 4 > |data| {
      return Err(QuestionIncomplete);
    }
    var qtypeNum := ReadU16(data, next);
    var qclassNum := ReadU16(data, next + 2);
    var qtype := TypeFromU16(qtypeNum);
    if qtype.None? {
      return Err(BadQuestionType);
    }
    var qclass := ClassFromU16(qclassNum);
    if qclass.None? {
      return Err(BadQuestionClass);
    }
    return Ok(QuestionAt(Question(name.value.name, qtype.value, qclass.value), next + 4));
  }

  /** `qs` ahead of the questions `r` read, when it read them. */
  function PrependQuestions(qs: seq<Question>, r: Result<Section>): Result<Section>
  {
    match r
    case Ok(s) => Ok(Section(qs + s.questions, s.next))
    case Err(e) => Err(e)
  }

  /** The question loop of `DnsMessage::from_bytes`: `n` questions from `pos` on. */
  method ReadQuestions(data: seq<byte>, pos: nat, n: nat) returns (r: Result<Section>)
    ensures r == ParseQuestions(data, pos, n)
  {
    var offset: nat := pos;
    var questions: seq<Question> := [];
    if ParseQuestions(data, pos, n).Ok? {
      assert [] + ParseQuestions(data, pos, n).value.questions == ParseQuestions(data, pos, n).value.questions;
    }
    for i := 0 to n
      invariant ParseQuestions(data, pos, n) == PrependQuestions(questions, ParseQuestions(data, offset, n - i))
    {
      QuestionStep(data, offset, n - i, questions);
      var q := ReadQuestion(data, offset);
      if q.Err? {
        return Err(q.error);
      }
      questions := questions + [q.value.question];
      offset := q.value.next;
    }
    assert questions + [] == questions;
    return Ok(Section(questions, offset));
  }

  /** The body of the answer loop of `DnsMessage::from_bytes`, step by step: the statement form of `ScanAnswer`. */
  method ReadAnswer(data: seq<byte>, offset: nat) returns (r: Result<AnswerAt>)
    ensures r == ScanAnswer(data, offset)
  {
    if offset >= |data| {
      return Ok(Stop);
    }
    var name := DecodeName(data, offset);
    if name.Err? {
      return Err(name.error);
    }
    var next := name.value.next;
    if next + 10 > |data| {
      return Ok(Stop);
    }
    var rtypeNum := ReadU16(data, next);
    var classNum := ReadU16(data, next + 2);
    var ttl := ReadU32(data, next + 4);
    var rdlength := ReadU16(data, next + 8);
    var start := next + 10;
    if start + rdlength > |data| {
      return Ok(Stop);
    }
    var rdata := data[start..start + rdlength];
    var kept: seq<Record> := [];
    var rtype := TypeFromU16(rtypeNum);
    var rclass := ClassFromU16(classNum);
    if rtype.Some? && rclass.Some? {
      kept := [Record(name.value.name, rtype.value, rclass.value, ttl, rdata)];
    }
    return Ok(Found(kept, start + rdlength));
  }

  /**
   * The answer loop of `DnsMessage::from_bytes`: at most `n` answers from
   * `pos` on, leaving the loop when the bytes run out.
   */
  method ReadAnswers(data: seq<byte>, pos: nat, n: nat) returns (r: Result<seq<Record>>)
    ensures r == ParseAnswers(data, pos, n)
  {
    var offset: nat := pos;
    var answers: seq<Record> := [];
    ghost var goal := ParseAnswers(data, pos, n);
    PrependNothing(goal);
    var i := 0;
    while i < n
      invariant i <= n
      invariant goal == Prepend(answers, ParseAnswers(data, offset, n - i))
    {
      var scan := ReadAnswer(data, offset);
      AnswersPass(data, goal, n, answers, offset, i, scan);
      if scan.Err? {
        return Err(scan.error);
      }
      if scan.value.Stop? {
        return Ok(answers);
      }
      answers := answers + scan.value.kept;
      offset := scan.value.next;
      i := i + 1;
    }
    AnswersDone(data, goal, answers, offset);
    return Ok(answers);
  }

  /** After its last pass the answer loop has read every answer it keeps. */
  lemma AnswersDone(data: seq<byte>, goal: Result<seq<Record>>, done: seq<Record>, offset: nat)
    requires goal == Prepend(done, ParseAnswers(data, offset, 0))
    ensures goal == Ok(done)
  {
    assert done + [] == done;
  }

  /**
   * One pass of the answer loop, under its invariant: a failing pass fails
   * the loop, a pass that finds the end leaves it with the answers kept so
   * far, and an entry joins those answers.
   */
  lemma AnswersPass(data: seq<byte>, goal: Result<seq<Record>>, n: nat, done: seq<Record>, offset: nat, i: nat,
                    scan: Result<AnswerAt>)
    requires i < n && goal == Prepend(done, ParseAnswers(data, offset, n - i))
    requires scan == ScanAnswer(data, offset)
    ensures scan.Err? ==> goal == Err(scan.error)
    ensures scan == Ok(Stop) ==> goal == Ok(done)
    ensures scan.Ok? && scan.value.Found? ==>
      goal == Prepend(done + scan.value.kept, ParseAnswers(data, scan.value.next, n - (i + 1)))
  {
    if scan == Ok(Stop) {
      assert done + [] == done;
    } else if scan.Ok? {
      AnswersAfterEntry(data, offset, n - i);
      PrependPrepend(done, scan.value.kept, ParseAnswers(data, scan.value.next, n - i - 1));
    }
  }

  /** An entry read by one pass is kept ahead of the answers after it. */
  lemma AnswersAfterEntry(data: seq<byte>, pos: nat, n: nat)
    requires n > 0 && ScanAnswer(data, pos).Ok? && ScanAnswer(data, pos).value.Found?
    ensures var scan := ScanAnswer(data, pos).value;
      ParseAnswers(data, pos, n) == Prepend(scan.kept, ParseAnswers(data, scan.next, n - 1))
  {
  }

  /** `DnsMessage::from_bytes`: the header, then the question loop, then the answer loop. */
  method MessageFromBytes(data: seq<byte>) returns (r: Result<Message>)
    ensures r == ParseMessage(data)
  {
    if |data| < 12 {
      return Err(MessageTooShort);
    }
    var header := HeaderFromBytes(data).value;
    var section := ReadQuestions(data, 12, header.qdcount);
    if section.Err? {
      return Err(section.error);
    }
    var answers := ReadAnswers(data, section.value.next, header.ancount);
    if answers.Err? {
      return Err(answers.error);
    }
    return Ok(Message(header, section.value.questions, answers.value, [], []));
  }
}
