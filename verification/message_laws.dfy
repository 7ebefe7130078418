/**
 * Properties of the message codec: what parsing makes of written messages,
 * of messages cut short, and of entries it does not know.
 *
 * The proofs go in two steps. Layout lemmas turn bytes written at a
 * position into "placed" facts: the name there decodes, and the entry's
 * fixed fields follow it. Reading lemmas then turn placed facts into what
 * the question and answer loops return.
 */
module MessageLaws {
  import opened Wire
  import opened HeaderCodec
  import opened NameCodec
  import opened RecordCodec
  import opened MessageCodec

  /** Every question's name survives a round trip. */
  predicate QuestionNamesValid(qs: seq<Question>)
  {
    forall i :: 0 <= i < |qs| ==> ValidName(qs[i].name)
  }

  /** Every record's name survives a round trip and its data's length fits the 16-bit length field. */
  predicate RecordsFit(rs: seq<Record>)
  {
    forall i :: 0 <= i < |rs| ==> ValidName(rs[i].name) && |rs[i].data| < 0x1_0000
  }

  /**
   * A message the codec reproduces: narrow header fields in range, counts
   * that match the sections, names that round-trip and record data that
   * fits its length field.
   */
  predicate WellFormed(m: Message)
  {
    InRange(m.header) && m.header.qdcount == |m.questions| && m.header.ancount == |m.answers|
    && QuestionNamesValid(m.questions) && RecordsFit(m.answers)
  }

  // ---------------------------------------------------------------------------
  // One question, one answer
  // ---------------------------------------------------------------------------

  /**
   * What one pass of the question loop makes of a name that decodes at
   * `pos` (plainly or through pointers) followed by a type and a class.
   */
  lemma ScanQuestionAt(data: seq<byte>, pos: nat, name: seq<byte>, next: nat, qtype: u16, qclass: u16)
    requires DecodedName(data, pos) == Ok(NameAt(name, next)) && At(data, next, QuestionTail(qtype, qclass))
    ensures var t := TypeFromU16(qtype);
      var c := ClassFromU16(qclass);
      ScanQuestion(data, pos)
        == if t.None? then Err(BadQuestionType)
           else if c.None? then Err(BadQuestionClass)
           else Ok(QuestionAt(Question(name, t.value, c.value), next + 4))
  {
    QuestionTailAt(data, next, qtype, qclass);
  }

  /**
   * What one pass of the answer loop makes of a name that decodes at `pos`
   * followed by a complete entry: the record when its type and class are
   * known, nothing otherwise, and the offset just past the entry.
   */
  lemma ScanAnswerAt(data: seq<byte>, pos: nat, name: seq<byte>, next: nat,
                     rtype: u16, rclass: u16, ttl: u32, rdata: seq<byte>)
    requires DecodedName(data, pos) == Ok(NameAt(name, next)) && |rdata| < 0x1_0000
    requires At(data, next, RecordTail(rtype, rclass, ttl, rdata))
    ensures var t := TypeFromU16(rtype);
      var c := ClassFromU16(rclass);
      ScanAnswer(data, pos)
        == Ok(Found(if t.Some? && c.Some? then [Record(name, t.value, c.value, ttl, rdata)] else [],
                    next + 10 + |rdata|))
  {
    RecordTailAt(data, next, rtype, rclass, ttl, rdata);
    assert data[next + 10..next + 10 + |rdata|] == rdata;
  }

  /** A question's name decodes at `pos` and its type and class follow it. */
  predicate QuestionPlaced(data: seq<byte>, pos: nat, q: Question)
  {
    DecodedName(data, pos) == Ok(NameAt(q.name, pos + |q.name| + 2))
    && At(data, pos + |q.name| + 2, QuestionTail(TypeCode(q.qtype), ClassCode(q.qclass)))
  }

  /** A record's name decodes at `pos` and its fields and data, of a length the length field holds, follow it. */
  predicate RecordPlaced(data: seq<byte>, pos: nat, r: Record)
  {
    DecodedName(data, pos) == Ok(NameAt(r.name, pos + |r.name| + 2)) && |r.data| < 0x1_0000
    && At(data, pos + |r.name| + 2, RecordTail(TypeCode(r.rtype), ClassCode(r.rclass), r.ttl, r.data))
  }

  lemma PlaceQuestion(data: seq<byte>, pos: nat, q: Question)
    requires ValidName(q.name) && QuestionBytes(q).Ok? && At(data, pos, QuestionBytes(q).value)
    ensures QuestionPlaced(data, pos, q)
  {
    var nb := NameBytes(q.name).value;
    assert QuestionBytes(q).value == nb + QuestionTail(TypeCode(q.qtype), ClassCode(q.qclass));
    AtSplit(data, pos, nb, QuestionTail(TypeCode(q.qtype), ClassCode(q.qclass)));
    NameDecodesAt(data, pos, q.name);
  }

  lemma PlaceRecord(data: seq<byte>, pos: nat, r: Record)
    requires ValidName(r.name) && |r.data| < 0x1_0000 && RecordBytes(r).Ok? && At(data, pos, RecordBytes(r).value)
    ensures RecordPlaced(data, pos, r)
  {
    var nb := NameBytes(r.name).value;
    var tail := RecordTail(TypeCode(r.rtype), ClassCode(r.rclass), r.ttl, r.data);
    assert RecordBytes(r).value == nb + tail;
    AtSplit(data, pos, nb, tail);
    NameDecodesAt(data, pos, r.name);
  }

  lemma ReadPlacedQuestion(data: seq<byte>, pos: nat, q: Question)
    requires QuestionPlaced(data, pos, q)
    ensures ScanQuestion(data, pos) == Ok(QuestionAt(q, pos + |q.name| + 6))
  {
    ScanQuestionAt(data, pos, q.name, pos + |q.name| + 2, TypeCode(q.qtype), ClassCode(q.qclass));
    TypeCodeRoundTrip(q.qtype);
    assert Question(q.name, q.qtype, IN) == q;
  }

  lemma ReadPlacedRecord(data: seq<byte>, pos: nat, r: Record)
    requires RecordPlaced(data, pos, r)
    ensures ScanAnswer(data, pos) == Ok(Found([r], pos + |r.name| + 12 + |r.data|))
  {
    ScanAnswerAt(data, pos, r.name, pos + |r.name| + 2, TypeCode(r.rtype), ClassCode(r.rclass), r.ttl, r.data);
    TypeCodeRoundTrip(r.rtype);
    assert Record(r.name, r.rtype, IN, r.ttl, r.data) == r;
  }

  /** A written question reads back as itself, with the offset just past it. */
  lemma ScanQuestionRoundTrip(data: seq<byte>, pos: nat, q: Question)
    requires ValidName(q.name) && QuestionBytes(q).Ok? && At(data, pos, QuestionBytes(q).value)
    ensures ScanQuestion(data, pos) == Ok(QuestionAt(q, pos + |q.name| + 6))
  {
    PlaceQuestion(data, pos, q);
    ReadPlacedQuestion(data, pos, q);
  }

  /** A written record reads back as itself, with the offset just past it. */
  lemma ScanAnswerRoundTrip(data: seq<byte>, pos: nat, r: Record)
    requires ValidName(r.name) && |r.data| < 0x1_0000
    requires RecordBytes(r).Ok? && At(data, pos, RecordBytes(r).value)
    ensures ScanAnswer(data, pos) == Ok(Found([r], pos + |r.name| + 12 + |r.data|))
  {
    PlaceRecord(data, pos, r);
    ReadPlacedRecord(data, pos, r);
  }

  /** A buffer that ends partway through a written question does not read. */
  lemma ScanQuestionCut(data: seq<byte>, pos: nat, q: Question)
    requires ValidName(q.name) && QuestionBytes(q).Ok? && CutShort(data, pos, QuestionBytes(q).value)
    ensures ScanQuestion(data, pos).Err?
  {
    var nb := NameBytes(q.name).value;
    var tail := QuestionTail(TypeCode(q.qtype), ClassCode(q.qclass));
    assert QuestionBytes(q).value == nb + tail;
    CutSplit(data, pos, nb, tail);
    if |data| < pos + |nb| {
      NameCutAt(data, pos, q.name);
    } else {
      NameDecodesAt(data, pos, q.name);
    }
  }

  /** After a decoded name, a record tail cut short ends the answer section. */
  lemma AnswerTailCut(data: seq<byte>, pos: nat, name: seq<byte>, next: nat, tail: seq<byte>,
                      rtype: u16, rclass: u16, ttl: u32, rdata: seq<byte>)
    requires DecodedName(data, pos) == Ok(NameAt(name, next)) && |rdata| < 0x1_0000
    requires tail == RecordTail(rtype, rclass, ttl, rdata) && CutShort(data, next, tail)
    ensures ScanAnswer(data, pos) == Ok(Stop)
  {
    if next + 10 <= |data| {
      CutKeeps(data, next, tail, 10);
      RecordFieldsAt(data, next, rtype, rclass, ttl, rdata);
    }
  }

  /**
   * A buffer that ends partway through a written record: at the record's
   * start, or anywhere after its name, the answer loop stops; inside its
   * name, reading fails.
   */
  lemma ScanAnswerCut(data: seq<byte>, pos: nat, r: Record)
    requires ValidName(r.name) && |r.data| < 0x1_0000
    requires RecordBytes(r).Ok? && CutShort(data, pos, RecordBytes(r).value)
    ensures if |data| == pos || |data| >= pos + |r.name| + 2 then ScanAnswer(data, pos) == Ok(Stop)
            else ScanAnswer(data, pos).Err?
  {
    var nb := NameBytes(r.name).value;
    var tail := RecordTail(TypeCode(r.rtype), ClassCode(r.rclass), r.ttl, r.data);
    assert RecordBytes(r).value == nb + tail;
    CutSplit(data, pos, nb, tail);
    if pos < |data| < pos + |nb| {
      NameCutAt(data, pos, r.name);
    } else if |data| >= pos + |nb| {
      NameDecodesAt(data, pos, r.name);
      AnswerTailCut(data, pos, r.name, pos + |nb|, tail, TypeCode(r.rtype), ClassCode(r.rclass), r.ttl, r.data);
    }
  }

  /**
   * A question of unknown type, or of known type but a class other than IN,
   * makes the whole question section fail, whatever follows it.
   */
  lemma UnknownQuestionRejected(data: seq<byte>, pos: nat, name: seq<byte>, next: nat, qtype: u16, qclass: u16, n: nat)
    requires DecodedName(data, pos) == Ok(NameAt(name, next)) && At(data, next, QuestionTail(qtype, qclass))
    ensures TypeFromU16(qtype).None? ==> ParseQuestions(data, pos, n + 1) == Err(BadQuestionType)
    ensures TypeFromU16(qtype).Some? && qclass != 1 ==> ParseQuestions(data, pos, n + 1) == Err(BadQuestionClass)
  {
    ScanQuestionAt(data, pos, name, next, qtype, qclass);
  }

  /**
   * An answer entry of unknown type or class is passed over: the answer
   * loop goes on after it with one pass fewer and keeps nothing for it.
   */
  lemma UnknownAnswerSkipped(data: seq<byte>, pos: nat, name: seq<byte>, next: nat,
                             rtype: u16, rclass: u16, ttl: u32, rdata: seq<byte>, n: nat)
    requires DecodedName(data, pos) == Ok(NameAt(name, next)) && |rdata| < 0x1_0000
    requires TypeFromU16(rtype).None? || ClassFromU16(rclass).None?
    requires At(data, next, RecordTail(rtype, rclass, ttl, rdata))
    ensures ParseAnswers(data, pos, n + 1) == ParseAnswers(data, next + 10 + |rdata|, n)
  {
    ScanAnswerAt(data, pos, name, next, rtype, rclass, ttl, rdata);
    PrependNothing(ParseAnswers(data, next + 10 + |rdata|, n));
  }

  // ---------------------------------------------------------------------------
  // Sections
  // ---------------------------------------------------------------------------

  lemma ValidNamesEncode(qs: seq<Question>)
    requires QuestionNamesValid(qs)
    ensures QuestionsBytes(qs).Ok?
  {
    forall i | 0 <= i < |qs|
      ensures NameBytes(qs[i].name).Ok?
    {
      ValidNameEncodes(qs[i].name);
    }
    QuestionsBytesOk(qs);
  }

  lemma FittingRecordsEncode(rs: seq<Record>)
    requires RecordsFit(rs)
    ensures RecordsBytes(rs).Ok?
  {
    forall i | 0 <= i < |rs|
      ensures NameBytes(rs[i].name).Ok?
    {
      ValidNameEncodes(rs[i].name);
    }
    RecordsBytesOk(rs);
  }

  /** The section of valid questions after the first. */
  lemma QuestionsTail(qs: seq<Question>)
    requires QuestionNamesValid(qs) && qs != []
    ensures QuestionNamesValid(qs[1..]) && QuestionBytes(qs[0]).Ok? && QuestionsBytes(qs[1..]).Ok?
    ensures QuestionsBytes(qs).value == QuestionBytes(qs[0]).value + QuestionsBytes(qs[1..]).value
  {
    assert forall i :: 0 < i < |qs| ==> qs[1..][i - 1] == qs[i];
    ValidNamesEncode(qs[1..]);
    ValidNameEncodes(qs[0].name);
  }

  /** The fitting records after the first. */
  lemma RecordsTail(rs: seq<Record>)
    requires RecordsFit(rs) && rs != []
    ensures RecordsFit(rs[1..]) && RecordBytes(rs[0]).Ok? && RecordsBytes(rs[1..]).Ok?
    ensures RecordsBytes(rs).value == RecordBytes(rs[0]).value + RecordsBytes(rs[1..]).value
  {
    assert forall i :: 0 < i < |rs| ==> rs[1..][i - 1] == rs[i];
    FittingRecordsEncode(rs[1..]);
    ValidNameEncodes(rs[0].name);
  }

  /** From `pos` on, successive passes of `scan` read `qs`, each pass ending where the next starts. */
  predicate ReadsQuestions(scan: nat -> Result<QuestionAt>, pos: nat, qs: seq<Question>)
    decreases |qs|
  {
    qs == [] ||
    (scan(pos) == Ok(QuestionAt(qs[0], pos + |qs[0].name| + 6))
     && ReadsQuestions(scan, pos + |qs[0].name| + 6, qs[1..]))
  }

  /** From `pos` on, successive passes of `scan` find `rs`, one record per pass, each pass ending where the next starts. */
  predicate ReadsRecords(scan: nat -> Result<AnswerAt>, pos: nat, rs: seq<Record>)
    decreases |rs|
  {
    rs == [] ||
    (scan(pos) == Ok(Found([rs[0]], pos + |rs[0].name| + 12 + |rs[0].data|))
     && ReadsRecords(scan, pos + |rs[0].name| + 12 + |rs[0].data|, rs[1..]))
  }

  /** The question reader at `pos` is one question scan there. */
  lemma QuestionReaderScans(data: seq<byte>, pos: nat)
    ensures QuestionReader(data)(pos) == ScanQuestion(data, pos)
  {
  }

  /** The answer reader at `pos` is one answer scan there. */
  lemma AnswerReaderScans(data: seq<byte>, pos: nat)
    ensures AnswerReader(data)(pos) == ScanAnswer(data, pos)
  {
  }

  /** A written question section is read back one question per pass. */
  lemma {:induction false} WrittenQuestionsRead(data: seq<byte>, pos: nat, qs: seq<Question>)
    requires QuestionsWritten(data, pos, qs)
    ensures ReadsQuestions(QuestionReader(data), pos, qs)
    decreases |qs|
  {
    if qs != [] {
      WrittenQuestionHead(data, pos, qs);
      WrittenQuestionsRead(data, pos + |qs[0].name| + 6, qs[1..]);
      ReadsQuestionsStep(QuestionReader(data), pos, qs);
    }
  }

  /** The first of the written questions is read where the section starts, and the others are written after it. */
  lemma WrittenQuestionHead(data: seq<byte>, pos: nat, qs: seq<Question>)
    requires qs != [] && QuestionsWritten(data, pos, qs)
    ensures QuestionReader(data)(pos) == Ok(QuestionAt(qs[0], pos + |qs[0].name| + 6))
    ensures QuestionsWritten(data, pos + |qs[0].name| + 6, qs[1..])
  {
    QuestionsSplit(data, pos, qs);
    ScanQuestionRoundTrip(data, pos, qs[0]);
    QuestionReaderScans(data, pos);
  }

  /** The first of the written questions sits where the section starts, and the others sit after it. */
  lemma QuestionsSplit(data: seq<byte>, pos: nat, qs: seq<Question>)
    requires qs != [] && QuestionsWritten(data, pos, qs)
    ensures ValidName(qs[0].name) && QuestionBytes(qs[0]).Ok? && At(data, pos, QuestionBytes(qs[0]).value)
    ensures QuestionsWritten(data, pos + |qs[0].name| + 6, qs[1..])
  {
    QuestionsTail(qs);
    AtSplitAt(data, pos, QuestionBytes(qs[0]).value, QuestionsBytes(qs[1..]).value, pos + |qs[0].name| + 6);
  }

  /** Written records are read back one per pass, each where it sits. */
  lemma {:induction false} WrittenRecordsRead(data: seq<byte>, pos: nat, rs: seq<Record>)
    requires RecordsWritten(data, pos, rs)
    ensures ReadsRecords(AnswerReader(data), pos, rs)
    decreases |rs|
  {
    if rs != [] {
      WrittenRecordHead(data, pos, rs);
      WrittenRecordsRead(data, pos + |rs[0].name| + 12 + |rs[0].data|, rs[1..]);
      ReadsRecordsStep(AnswerReader(data), pos, rs);
    }
  }

  /** Questions are read from `pos` on when the first is read there and the others after it. */
  lemma ReadsQuestionsStep(scan: nat -> Result<QuestionAt>, pos: nat, qs: seq<Question>)
    requires qs != [] && scan(pos) == Ok(QuestionAt(qs[0], pos + |qs[0].name| + 6))
    requires ReadsQuestions(scan, pos + |qs[0].name| + 6, qs[1..])
    ensures ReadsQuestions(scan, pos, qs)
  {
  }

  /** Records are read from `pos` on when the first is read there and the others after it. */
  lemma ReadsRecordsStep(scan: nat -> Result<AnswerAt>, pos: nat, rs: seq<Record>)
    requires rs != [] && scan(pos) == Ok(Found([rs[0]], pos + |rs[0].name| + 12 + |rs[0].data|))
    requires ReadsRecords(scan, pos + |rs[0].name| + 12 + |rs[0].data|, rs[1..])
    ensures ReadsRecords(scan, pos, rs)
  {
  }

  /** The first of the written records is read where the section starts, and the others are written after it. */
  lemma WrittenRecordHead(data: seq<byte>, pos: nat, rs: seq<Record>)
    requires rs != [] && RecordsWritten(data, pos, rs)
    ensures AnswerReader(data)(pos) == Ok(Found([rs[0]], pos + |rs[0].name| + 12 + |rs[0].data|))
    ensures RecordsWritten(data, pos + |rs[0].name| + 12 + |rs[0].data|, rs[1..])
  {
    RecordsSplit(data, pos, rs);
    ScanAnswerRoundTrip(data, pos, rs[0]);
    AnswerReaderScans(data, pos);
  }

  /** The first of the written records sits where the section starts, and the others sit after it. */
  lemma RecordsSplit(data: seq<byte>, pos: nat, rs: seq<Record>)
    requires rs != [] && RecordsWritten(data, pos, rs)
    ensures ValidName(rs[0].name) && |rs[0].data| < 0x1_0000 && RecordBytes(rs[0]).Ok? && At(data, pos, RecordBytes(rs[0]).value)
    ensures RecordsWritten(data, pos + |rs[0].name| + 12 + |rs[0].data|, rs[1..])
  {
    RecordsTail(rs);
    AtSplitAt(data, pos, RecordBytes(rs[0]).value, RecordsBytes(rs[1..]).value, pos + |rs[0].name| + 12 + |rs[0].data|);
  }

  lemma PrependNoQuestions(r: Result<Section>)
    ensures PrependQuestions([], r) == r
  {
    if r.Ok? {
      assert [] + r.value.questions == r.value.questions;
    }
  }

  lemma PrependQuestionsTwice(xs: seq<Question>, ys: seq<Question>, r: Result<Section>)
    ensures PrependQuestions(xs, PrependQuestions(ys, r)) == PrependQuestions(xs + ys, r)
  {
    if r.Ok? {
      assert xs + (ys + r.value.questions) == xs + ys + r.value.questions;
    }
  }

  /**
   * Questions read one per pass, followed by anything: with `left` passes
   * to spare, the question loop returns those questions ahead of whatever
   * it reads after them, at `end`.
   */
  lemma {:induction false} ParseReadQuestions(scan: nat -> Result<QuestionAt>, pos: nat, qs: seq<Question>,
                                              end: nat, n: nat, left: nat)
    requires ReadsQuestions(scan, pos, qs) && end == pos + QuestionsSize(qs) && n == |qs| + left
    ensures QuestionLoop(scan, pos, n) == PrependQuestions(qs, QuestionLoop(scan, end, left))
    decreases |qs|
  {
    if qs == [] {
      PrependNoQuestions(QuestionLoop(scan, pos, left));
    } else {
      ParseReadQuestions(scan, pos + |qs[0].name| + 6, qs[1..], end, n - 1, left);
      PrependQuestionsTwice([qs[0]], qs[1..], QuestionLoop(scan, end, left));
      assert [qs[0]] + qs[1..] == qs;
    }
  }

  /**
   * Records read one per pass, followed by anything: with `left` passes to
   * spare, the answer loop returns those records ahead of whatever it reads
   * after them, at `end`.
   */
  lemma {:induction false} ParseReadRecords(scan: nat -> Result<AnswerAt>, pos: nat, rs: seq<Record>,
                                            end: nat, n: nat, left: nat)
    requires ReadsRecords(scan, pos, rs) && end == pos + RecordsSize(rs) && n == |rs| + left
    ensures AnswerLoop(scan, pos, n) == Prepend(rs, AnswerLoop(scan, end, left))
    decreases |rs|
  {
    if rs == [] {
      PrependNothing(AnswerLoop(scan, pos, left));
    } else {
      ParseReadRecords(scan, pos + |rs[0].name| + 12 + |rs[0].data|, rs[1..], end, n - 1, left);
      PrependPrepend([rs[0]], rs[1..], AnswerLoop(scan, end, left));
      assert [rs[0]] + rs[1..] == rs;
    }
  }

  /** The questions `qs` are written at `pos` of `data`. */
  predicate QuestionsWritten(data: seq<byte>, pos: nat, qs: seq<Question>)
  {
    QuestionNamesValid(qs) && QuestionsBytes(qs).Ok? && At(data, pos, QuestionsBytes(qs).value)
  }

  /** The bytes of `q`, written at `pos`, are cut short by the end of `data`. */
  predicate QuestionCut(data: seq<byte>, pos: nat, q: Question)
  {
    ValidName(q.name) && QuestionBytes(q).Ok? && CutShort(data, pos, QuestionBytes(q).value)
  }

  /** The question loop's pass fails on a question cut short. */
  lemma QuestionScanCut(data: seq<byte>, pos: nat, q: Question)
    requires QuestionCut(data, pos, q)
    ensures QuestionReader(data)(pos).Err?
  {
    ScanQuestionCut(data, pos, q);
    QuestionReaderScans(data, pos);
  }

  /** Two pieces that sit one after the other sit together. */
  lemma AtJoin(data: seq<byte>, pos: nat, a: seq<byte>, b: seq<byte>, next: nat)
    requires At(data, pos, a) && At(data, next, b) && next == pos + |a|
    ensures At(data, pos, a + b)
  {
    assert forall i :: |a| <= i < |a| + |b| ==> data[next + (i - |a|)] == b[i - |a|] == (a + b)[i];
  }

  /** A question written at `pos`, followed by written questions, starts written questions. */
  lemma WrittenQuestionCons(data: seq<byte>, pos: nat, q: Question, qs: seq<Question>, next: nat)
    requires ValidName(q.name) && QuestionBytes(q).Ok? && At(data, pos, QuestionBytes(q).value)
    requires next == pos + |q.name| + 6 && QuestionsWritten(data, next, qs)
    ensures QuestionsWritten(data, pos, [q] + qs)
    ensures QuestionsSize([q] + qs) == |q.name| + 6 + QuestionsSize(qs)
  {
    assert ([q] + qs)[0] == q && ([q] + qs)[1..] == qs;
    assert forall i :: 1 <= i < |qs| + 1 ==> ([q] + qs)[i] == qs[i - 1];
    AtJoin(data, pos, QuestionBytes(q).value, QuestionsBytes(qs).value, next);
  }

  /**
   * A buffer that ends partway through a written question section: the
   * questions `done` in front are written whole and the buffer ends inside
   * the next question `q`.
   */
  lemma {:induction false} CutQuestionsSplit(data: seq<byte>, pos: nat, qs: seq<Question>) returns (done: seq<Question>, q: Question)
    requires QuestionNamesValid(qs) && QuestionsBytes(qs).Ok? && CutShort(data, pos, QuestionsBytes(qs).value)
    ensures |done| < |qs| && QuestionsWritten(data, pos, done)
    ensures QuestionCut(data, pos + QuestionsSize(done), q)
    decreases |qs|
  {
    assert qs != [];
    QuestionsTail(qs);
    var next := pos + |qs[0].name| + 6;
    CutSplitAt(data, pos, QuestionBytes(qs[0]).value, QuestionsBytes(qs[1..]).value, next);
    if |data| < next {
      done, q := [], qs[0];
    } else {
      var rest;
      rest, q := CutQuestionsSplit(data, next, qs[1..]);
      done := [qs[0]] + rest;
      WrittenQuestionCons(data, pos, qs[0], rest, next);
    }
  }

  /** Written records sit where `RecordsBytes` of a longer list puts them: appending records appends bytes. */
  lemma {:induction false} RecordsBytesAppend(xs: seq<Record>, ys: seq<Record>)
    requires RecordsBytes(xs).Ok?
    ensures RecordsBytes(xs + ys) == Prepend(RecordsBytes(xs).value, RecordsBytes(ys))
    decreases |xs|
  {
    if xs == [] {
      assert xs + ys == ys;
      PrependNothing(RecordsBytes(ys));
    } else {
      assert (xs + ys)[0] == xs[0] && (xs + ys)[1..] == xs[1..] + ys;
      RecordsBytesAppend(xs[1..], ys);
      PrependPrepend(RecordBytes(xs[0]).value, RecordsBytes(xs[1..]).value, RecordsBytes(ys));
    }
  }

  // ---------------------------------------------------------------------------
  // Whole messages
  // ---------------------------------------------------------------------------

  lemma MessageEncodes(m: Message)
    requires QuestionNamesValid(m.questions) && RecordsFit(m.answers)
    ensures MessageBytes(m).Ok?
  {
    ValidNamesEncode(m.questions);
    FittingRecordsEncode(m.answers);
  }

  /** Header `h` reads from `data`, and questions `qs` and records `rs` are read back one per pass after it. */
  predicate ReadsSections(data: seq<byte>, h: Header, qs: seq<Question>, rs: seq<Record>)
  {
    HeaderFromBytes(data) == Ok(h)
    && ReadsQuestions(QuestionReader(data), HeaderSize, qs)
    && ReadsRecords(AnswerReader(data), HeaderSize + QuestionsSize(qs), rs)
  }

  /** The records `rs` are written at `pos` of `data`. */
  predicate RecordsWritten(data: seq<byte>, pos: nat, rs: seq<Record>)
  {
    RecordsFit(rs) && RecordsBytes(rs).Ok? && At(data, pos, RecordsBytes(rs).value)
  }

  /** A written message lays out its header, then its questions, then its answers. */
  lemma WrittenSections(data: seq<byte>, m: Message)
    requires InRange(m.header) && QuestionNamesValid(m.questions) && RecordsFit(m.answers)
    requires MessageBytes(m).Ok? && At(data, 0, MessageBytes(m).value)
    ensures HeaderFromBytes(data) == Ok(m.header)
    ensures QuestionsWritten(data, HeaderSize, m.questions)
    ensures RecordsWritten(data, HeaderSize + QuestionsSize(m.questions), m.answers)
  {
    var h := HeaderBytes(m.header);
    var qb := QuestionsBytes(m.questions).value;
    var ab := RecordsBytes(m.answers).value;
    assert MessageBytes(m).value == h + qb + ab;
    ThreeAt(data, h, qb, ab);
    HeaderAt(data, m.header);
  }

  /** Three pieces written one after the other from the start of a buffer. */
  lemma ThreeAt(data: seq<byte>, a: seq<byte>, b: seq<byte>, c: seq<byte>)
    requires At(data, 0, a + b + c)
    ensures At(data, 0, a) && At(data, |a|, b) && At(data, |a| + |b|, c)
  {
    AtSplit(data, 0, a + b, c);
    AtSplit(data, 0, a, b);
  }

  /** A buffer that starts with a written header reads it back. */
  lemma HeaderAt(data: seq<byte>, h: Header)
    requires InRange(h) && At(data, 0, HeaderBytes(h))
    ensures HeaderFromBytes(data) == Ok(h)
  {
    assert data == HeaderBytes(h) + data[HeaderSize..];
    HeaderRoundTrip(h, data[HeaderSize..]);
  }

  /** A buffer holding a written message reads back its header, then its questions and its answers one per pass. */
  lemma WrittenMessageRead(data: seq<byte>, m: Message)
    requires InRange(m.header) && QuestionNamesValid(m.questions) && RecordsFit(m.answers)
    requires MessageBytes(m).Ok? && At(data, 0, MessageBytes(m).value)
    ensures ReadsSections(data, m.header, m.questions, m.answers)
  {
    WrittenSections(data, m);
    WrittenMessageQuestions(data, m);
    WrittenMessageAnswers(data, m);
  }

  /** The questions of a written message are read back one per pass. */
  lemma WrittenMessageQuestions(data: seq<byte>, m: Message)
    requires InRange(m.header) && QuestionNamesValid(m.questions) && RecordsFit(m.answers)
    requires MessageBytes(m).Ok? && At(data, 0, MessageBytes(m).value)
    ensures ReadsQuestions(QuestionReader(data), HeaderSize, m.questions)
  {
    WrittenSections(data, m);
    WrittenQuestionsRead(data, HeaderSize, m.questions);
  }

  /** The answers of a written message are read back one per pass. */
  lemma WrittenMessageAnswers(data: seq<byte>, m: Message)
    requires InRange(m.header) && QuestionNamesValid(m.questions) && RecordsFit(m.answers)
    requires MessageBytes(m).Ok? && At(data, 0, MessageBytes(m).value)
    ensures ReadsRecords(AnswerReader(data), HeaderSize + QuestionsSize(m.questions), m.answers)
  {
    WrittenSections(data, m);
    WrittenRecordsRead(data, HeaderSize + QuestionsSize(m.questions), m.answers);
  }

  /**
   * A buffer whose header reads, whose questions are placed after it and
   * whose first answers are placed after them parses as those questions
   * and answers followed by whatever the answer loop reads next.
   */
  lemma ParseReadMessage(data: seq<byte>, h: Header, qs: seq<Question>, rs: seq<Record>, end: nat, left: nat)
    requires ReadsSections(data, h, qs, rs)
    requires h.qdcount == |qs| && h.ancount == |rs| + left
    requires end == HeaderSize + QuestionsSize(qs) + RecordsSize(rs)
    ensures var rest := ParseAnswers(data, end, left);
      (rest.Err? ==> ParseMessage(data) == Err(rest.error))
      && (rest.Ok? ==> ParseMessage(data) == Ok(Message(h, qs, rs + rest.value, [], [])))
  {
    var after := HeaderSize + QuestionsSize(qs);
    ParseReadQuestions(QuestionReader(data), HeaderSize, qs, after, h.qdcount, 0);
    assert qs + [] == qs;
    ParseReadRecords(AnswerReader(data), after, rs, end, h.ancount, left);
  }

  /** The question loop fails when a pass fails before it has read all the questions it was asked for. */
  lemma QuestionLoopFails(scan: nat -> Result<QuestionAt>, pos: nat, done: seq<Question>, n: nat)
    requires ReadsQuestions(scan, pos, done) && |done| < n && scan(pos + QuestionsSize(done)).Err?
    ensures QuestionLoop(scan, pos, n).Err?
  {
    ParseReadQuestions(scan, pos, done, pos + QuestionsSize(done), n, n - |done|);
  }

  /**
   * A buffer whose header announces more questions than the question loop
   * can read, because it meets a question it cannot read after `done`, does
   * not parse.
   */
  lemma QuestionFailureFails(data: seq<byte>, h: Header, qs: seq<Question>, done: seq<Question>)
    requires HeaderFromBytes(data) == Ok(h) && h.qdcount == |qs| && |done| < |qs|
    requires ReadsQuestions(QuestionReader(data), HeaderSize, done)
    requires QuestionReader(data)(HeaderSize + QuestionsSize(done)).Err?
    ensures ParseMessage(data).Err?
  {
    QuestionLoopFails(QuestionReader(data), HeaderSize, done, |qs|);
  }

  /**
   * A buffer that starts with a well-formed written message parses as that
   * message, whatever bytes follow it; the authority and additional
   * sections, which are never written, come back empty.
   */
  lemma WrittenMessageParses(data: seq<byte>, m: Message)
    requires WellFormed(m) && MessageBytes(m).Ok? && At(data, 0, MessageBytes(m).value)
    ensures ParseMessage(data) == Ok(m.(authorities := [], additionals := []))
  {
    WrittenMessageRead(data, m);
    ParseReadMessage(data, m.header, m.questions, m.answers, HeaderSize + QuestionsSize(m.questions) + RecordsSize(m.answers), 0);
    assert m.answers + [] == m.answers;
  }

  /**
   * The message round trip: a well-formed message is written and read back
   * as itself, except that its authority and additional sections come back
   * empty.
   */
  lemma MessageRoundTrip(m: Message)
    requires WellFormed(m)
    ensures MessageBytes(m).Ok?
    ensures ParseMessage(MessageBytes(m).value) == Ok(m.(authorities := [], additionals := []))
  {
    MessageEncodes(m);
    var data := MessageBytes(m).value;
    assert data[0..|data|] == data;
    WrittenMessageParses(data, m);
  }

  /** `new_query` followed by `to_bytes` and `from_bytes` gives the query back. */
  lemma QueryRoundTrip(id: u16, name: seq<byte>, qtype: RecordType)
    requires ValidName(name)
    ensures MessageBytes(NewQuery(id, name, qtype)).Ok?
    ensures ParseMessage(MessageBytes(NewQuery(id, name, qtype)).value) == Ok(NewQuery(id, name, qtype))
  {
    MessageRoundTrip(NewQuery(id, name, qtype));
  }

  /**
   * A buffer that ends inside a written question section: the question
   * loop reads the questions `done` in front of the cut, then meets a
   * question it cannot read.
   */
  lemma QuestionCutRead(data: seq<byte>, pos: nat, qs: seq<Question>) returns (done: seq<Question>)
    requires QuestionNamesValid(qs) && QuestionsBytes(qs).Ok? && CutShort(data, pos, QuestionsBytes(qs).value)
    ensures |done| < |qs| && ReadsQuestions(QuestionReader(data), pos, done)
    ensures QuestionReader(data)(pos + QuestionsSize(done)).Err?
  {
    var q;
    done, q := CutQuestionsSplit(data, pos, qs);
    WrittenQuestionsRead(data, pos, done);
    QuestionScanCut(data, pos + QuestionsSize(done), q);
  }

  /** A message cut inside its question section: its header reads and its question bytes are cut short. */
  lemma QuestionCutBytes(m: Message, cut: nat)
    requires InRange(m.header) && MessageBytes(m).Ok?
    requires HeaderSize <= cut < HeaderSize + QuestionsSize(m.questions)
    ensures QuestionsBytes(m.questions).Ok?
    ensures var data := MessageBytes(m).value[..cut];
      HeaderFromBytes(data) == Ok(m.header) && CutShort(data, HeaderSize, QuestionsBytes(m.questions).value)
  {
    var h := HeaderBytes(m.header);
    var qb := QuestionsBytes(m.questions).value;
    var data := MessageBytes(m).value[..cut];
    assert MessageBytes(m).value == h + qb + RecordsBytes(m.answers).value;
    assert data == h + qb[..cut - HeaderSize];
    HeaderRoundTrip(m.header, qb[..cut - HeaderSize]);
    assert data[HeaderSize..] == qb[..cut - HeaderSize];
  }

  /**
   * Parsing is strict in the question section: a message cut anywhere
   * before the end of its questions does not parse.
   */
  lemma QuestionSectionCut(m: Message, cut: nat)
    requires WellFormed(m) && cut < HeaderSize + QuestionsSize(m.questions)
    ensures MessageBytes(m).Ok?
    ensures ParseMessage(MessageBytes(m).value[..cut]).Err?
  {
    MessageEncodes(m);
    if cut >= HeaderSize {
      var data := MessageBytes(m).value[..cut];
      QuestionCutBytes(m, cut);
      var done := QuestionCutRead(data, HeaderSize, m.questions);
      QuestionFailureFails(data, m.header, m.questions, done);
    }
  }

  /** Answer `k` of a well-formed message exists and `cut` falls inside its bytes. */
  predicate CutInside(m: Message, k: nat, cut: nat)
  {
    WellFormed(m) && k < |m.answers| && cut < |m.answers[k].name| + 12 + |m.answers[k].data|
  }

  /** The message with only its first `k` answers written, then the first `cut` bytes of the next answer. */
  function CutInAnswer(m: Message, k: nat, cut: nat): (data: seq<byte>)
    requires CutInside(m, k, cut)
    ensures |data| == HeaderSize + QuestionsSize(m.questions) + RecordsSize(m.answers[..k]) + cut
  {
    assert RecordsFit(m.answers[..k]) by {
      assert forall i :: 0 <= i < k ==> m.answers[..k][i] == m.answers[i];
    }
    MessageEncodes(m.(answers := m.answers[..k]));
    ValidNameEncodes(m.answers[k].name);
    MessageBytes(m.(answers := m.answers[..k])).value + RecordBytes(m.answers[k]).value[..cut]
  }

  /** The records in front of `k` of a list that encodes encode too. */
  lemma FitPrefix(rs: seq<Record>, k: nat)
    requires RecordsFit(rs) && k <= |rs|
    ensures RecordsBytes(rs[..k]).Ok?
  {
    assert forall i :: 0 <= i < k ==> rs[..k][i] == rs[i];
    FittingRecordsEncode(rs[..k]);
  }

  /** The records from `k` on of a list that encodes are record `k`'s bytes, then those after it. */
  lemma FitSuffix(rs: seq<Record>, k: nat)
    requires RecordsFit(rs) && k < |rs|
    ensures RecordBytes(rs[k]).Ok? && RecordsBytes(rs[k + 1..]).Ok?
    ensures RecordsBytes(rs[k..]) == Ok(RecordBytes(rs[k]).value + RecordsBytes(rs[k + 1..]).value)
  {
    ValidNameEncodes(rs[k].name);
    assert forall i :: k + 1 <= i < |rs| ==> rs[k + 1..][i - k - 1] == rs[i];
    FittingRecordsEncode(rs[k + 1..]);
    assert rs[k..][0] == rs[k] && rs[k..][1..] == rs[k + 1..];
  }

  /** The bytes of a record list are those of the records before `k`, of record `k`, and of the records after it. */
  lemma RecordsAround(rs: seq<Record>, k: nat)
    requires RecordsFit(rs) && k < |rs|
    ensures RecordsBytes(rs).Ok? && RecordsBytes(rs[..k]).Ok? && RecordBytes(rs[k]).Ok? && RecordsBytes(rs[k + 1..]).Ok?
    ensures RecordsBytes(rs).value
         == RecordsBytes(rs[..k]).value + (RecordBytes(rs[k]).value + RecordsBytes(rs[k + 1..]).value)
  {
    assert rs == rs[..k] + rs[k..];
    FitPrefix(rs, k);
    FitSuffix(rs, k);
    RecordsBytesAppend(rs[..k], rs[k..]);
  }

  /** The bytes of a message are those of the message with only its first `k` answers, then the rest of its answers. */
  lemma FrontBytes(m: Message, k: nat)
    requires QuestionNamesValid(m.questions) && RecordsFit(m.answers) && k < |m.answers|
    ensures MessageBytes(m).Ok? && MessageBytes(m.(answers := m.answers[..k])).Ok?
    ensures RecordBytes(m.answers[k]).Ok? && RecordsBytes(m.answers[k + 1..]).Ok?
    ensures MessageBytes(m).value
         == MessageBytes(m.(answers := m.answers[..k])).value
            + (RecordBytes(m.answers[k]).value + RecordsBytes(m.answers[k + 1..]).value)
  {
    ValidNamesEncode(m.questions);
    RecordsAround(m.answers, k);
    var hq := HeaderBytes(m.header) + QuestionsBytes(m.questions).value;
    MessageParts(m, hq);
    MessageParts(m.(answers := m.answers[..k]), hq);
    JoinAfter(hq, RecordsBytes(m.answers).value, RecordsBytes(m.answers[..k]).value,
              RecordBytes(m.answers[k]).value + RecordsBytes(m.answers[k + 1..]).value);
  }

  /** Bytes put after a piece made of two parts are the piece with its first part, then its second. */
  lemma JoinAfter(hq: seq<byte>, all: seq<byte>, front: seq<byte>, back: seq<byte>)
    requires all == front + back
    ensures hq + all == (hq + front) + back
  {
  }

  /** A message whose sections encode is its header and questions, then its answers. */
  lemma MessageParts(m: Message, hq: seq<byte>)
    requires QuestionsBytes(m.questions).Ok? && RecordsBytes(m.answers).Ok?
    requires hq == HeaderBytes(m.header) + QuestionsBytes(m.questions).value
    ensures MessageBytes(m) == Ok(hq + RecordsBytes(m.answers).value)
  {
  }

  /** A cut of the middle piece keeps a prefix. */
  lemma PrefixCut(a: seq<byte>, b: seq<byte>, c: seq<byte>, cut: nat)
    requires cut <= |b|
    ensures a + b[..cut] <= a + (b + c)
  {
    assert (a + (b + c))[..|a| + cut] == a + b[..cut];
  }

  /** A message cut inside an answer is a prefix of the whole message's bytes. */
  lemma CutInAnswerPrefix(m: Message, k: nat, cut: nat)
    requires CutInside(m, k, cut)
    ensures MessageBytes(m).Ok? && CutInAnswer(m, k, cut) <= MessageBytes(m).value
  {
    FrontBytes(m, k);
    var front := MessageBytes(m.(answers := m.answers[..k])).value;
    var rb := RecordBytes(m.answers[k]).value;
    assert CutInAnswer(m, k, cut) == front + rb[..cut];
    PrefixCut(front, rb, RecordsBytes(m.answers[k + 1..]).value, cut);
  }

  /**
   * The bytes of a message cut inside its `k`-th answer, as they lie in
   * `data`: the message of only the first `k` answers, then the first `cut`
   * bytes of answer `k`.
   */
  predicate CutLayout(data: seq<byte>, m: Message, k: nat, cut: nat)
  {
    k < |m.answers|
    && MessageBytes(m.(answers := m.answers[..k])).Ok? && RecordBytes(m.answers[k]).Ok?
    && At(data, 0, MessageBytes(m.(answers := m.answers[..k])).value)
    && CutShort(data, HeaderSize + QuestionsSize(m.questions) + RecordsSize(m.answers[..k]), RecordBytes(m.answers[k]).value)
    && |data| == HeaderSize + QuestionsSize(m.questions) + RecordsSize(m.answers[..k]) + cut
  }

  /** Whole bytes, then a proper prefix of more: the first lie in place, the second are cut short. */
  lemma CutAfter(data: seq<byte>, x: seq<byte>, rb: seq<byte>, cut: nat)
    requires cut < |rb| && data == x + rb[..cut]
    ensures At(data, 0, x) && CutShort(data, |x|, rb) && |data| == |x| + cut
  {
    assert forall i :: 0 <= i < cut ==> data[|x| + i] == rb[..cut][i] == rb[i];
  }

  /** A message cut inside its `k`-th answer has the layout of one. */
  lemma CutInAnswerLayout(m: Message, k: nat, cut: nat)
    requires CutInside(m, k, cut)
    ensures CutLayout(CutInAnswer(m, k, cut), m, k, cut)
  {
    FrontBytes(m, k);
    CutAfter(CutInAnswer(m, k, cut), MessageBytes(m.(answers := m.answers[..k])).value, RecordBytes(m.answers[k]).value, cut);
  }

  /** The records in front of `k` of a list that encodes fit too. */
  lemma FitFront(rs: seq<Record>, k: nat)
    requires RecordsFit(rs) && k <= |rs|
    ensures RecordsFit(rs[..k])
  {
    assert forall i :: 0 <= i < k ==> rs[..k][i] == rs[i];
  }

  /**
   * The answer loop ends at the first entry it cannot read: with the
   * answers read so far when the entry is cut short, with an error when it
   * cannot be read at all.
   */
  lemma AnswerLoopEnds(scan: nat -> Result<AnswerAt>, pos: nat, n: nat)
    requires n > 0
    ensures scan(pos) == Ok(Stop) ==> AnswerLoop(scan, pos, n) == Ok([])
    ensures scan(pos).Err? ==> AnswerLoop(scan, pos, n) == Err(scan(pos).error)
  {
  }

  /**
   * A buffer that ends inside a written answer: the answer loop there reads
   * nothing more when the cut falls at the answer's start or after its
   * name, and fails when the cut falls inside its name.
   */
  lemma CutAnswersEnd(data: seq<byte>, pos: nat, r: Record, left: nat)
    requires ValidName(r.name) && |r.data| < 0x1_0000 && left > 0
    requires RecordBytes(r).Ok? && CutShort(data, pos, RecordBytes(r).value)
    ensures if |data| == pos || |data| >= pos + |r.name| + 2 then ParseAnswers(data, pos, left) == Ok([])
            else ParseAnswers(data, pos, left).Err?
  {
    ScanAnswerCut(data, pos, r);
    AnswerLoopEnds(AnswerReader(data), pos, left);
  }

  /** The message with only its first `k` answers, as the parser builds it. */
  lemma FrontShape(m: Message, k: nat)
    requires k <= |m.answers|
    ensures Message(m.header, m.questions, m.answers[..k], [], [])
         == m.(answers := m.answers[..k], authorities := [], additionals := [])
  {
  }

  /** A buffer whose answer loop reads nothing after the sections read back parses as those sections. */
  lemma ReadMessageEnds(data: seq<byte>, h: Header, qs: seq<Question>, rs: seq<Record>, end: nat, left: nat)
    requires ReadsSections(data, h, qs, rs)
    requires h.qdcount == |qs| && h.ancount == |rs| + left
    requires end == HeaderSize + QuestionsSize(qs) + RecordsSize(rs)
    requires ParseAnswers(data, end, left) == Ok([])
    ensures ParseMessage(data) == Ok(Message(h, qs, rs, [], []))
  {
    ParseReadMessage(data, h, qs, rs, end, left);
    assert rs + [] == rs;
  }

  /** A buffer whose answer loop fails after the sections read back does not parse. */
  lemma ReadMessageFails(data: seq<byte>, h: Header, qs: seq<Question>, rs: seq<Record>, end: nat, left: nat)
    requires ReadsSections(data, h, qs, rs)
    requires h.qdcount == |qs| && h.ancount == |rs| + left
    requires end == HeaderSize + QuestionsSize(qs) + RecordsSize(rs)
    requires ParseAnswers(data, end, left).Err?
    ensures ParseMessage(data).Err?
  {
    ParseReadMessage(data, h, qs, rs, end, left);
  }

  /**
   * What the parser makes of any buffer laid out as a message cut inside
   * its `k`-th answer: the message with only the first `k` answers when the
   * cut falls at the answer's start or after its name, a failure when it
   * falls inside the name.
   */
  lemma LaidOutCutParses(data: seq<byte>, m: Message, k: nat, cut: nat)
    requires CutInside(m, k, cut) && CutLayout(data, m, k, cut)
    ensures (cut == 0 || cut >= |m.answers[k].name| + 2) ==>
      ParseMessage(data) == Ok(m.(answers := m.answers[..k], authorities := [], additionals := []))
    ensures 0 < cut < |m.answers[k].name| + 2 ==> ParseMessage(data).Err?
  {
    var front := m.(answers := m.answers[..k]);
    var at := HeaderSize + QuestionsSize(m.questions) + RecordsSize(m.answers[..k]);
    var left := |m.answers| - k;
    FitFront(m.answers, k);
    WrittenMessageRead(data, front);
    CutAnswersEnd(data, at, m.answers[k], left);
    if cut == 0 || cut >= |m.answers[k].name| + 2 {
      ReadMessageEnds(data, m.header, m.questions, m.answers[..k], at, left);
      FrontShape(m, k);
    } else {
      ReadMessageFails(data, m.header, m.questions, m.answers[..k], at, left);
    }
  }

  /**
   * Parsing is lenient in the answer section: a message cut inside its
   * `k`-th answer, at the answer's start or anywhere after its name, parses
   * as the same message with only the first `k` answers, though the header
   * still announces them all.
   */
  lemma AnswerSectionCut(m: Message, k: nat, cut: nat)
    requires WellFormed(m) && k < |m.answers|
    requires cut == 0 || |m.answers[k].name| + 2 <= cut < |m.answers[k].name| + 12 + |m.answers[k].data|
    ensures MessageBytes(m).Ok? && CutInAnswer(m, k, cut) <= MessageBytes(m).value
    ensures ParseMessage(CutInAnswer(m, k, cut)) == Ok(m.(answers := m.answers[..k], authorities := [], additionals := []))
  {
    assert CutInside(m, k, cut);
    CutInAnswerPrefix(m, k, cut);
    CutInAnswerLayout(m, k, cut);
    LaidOutCutParses(CutInAnswer(m, k, cut), m, k, cut);
  }

  /** A message cut inside the name of one of its answers does not parse. */
  lemma AnswerNameCut(m: Message, k: nat, cut: nat)
    requires WellFormed(m) && k < |m.answers|
    requires 0 < cut < |m.answers[k].name| + 2
    ensures MessageBytes(m).Ok? && CutInAnswer(m, k, cut) <= MessageBytes(m).value
    ensures ParseMessage(CutInAnswer(m, k, cut)).Err?
  {
    assert CutInside(m, k, cut);
    CutInAnswerPrefix(m, k, cut);
    CutInAnswerLayout(m, k, cut);
    LaidOutCutParses(CutInAnswer(m, k, cut), m, k, cut);
  }
}
