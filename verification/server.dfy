/**
 * How the DNS server answers one datagram: parse the query, copy it into a
 * response, answer each question from the name table, write the response.
 * Sockets, logging and the task that runs the handler are not modelled: the
 * handler takes the datagram's bytes and gives back the bytes it would send,
 * or nothing when it sends nothing.
 */
module Server {
  import opened Wire
  import opened HeaderCodec
  import opened RecordCodec
  import opened MessageCodec
  import opened NameDatabase

  /** The time to live of every answer, five minutes. */
  const AnswerTtl: u32 := 300

  /** The response code for a name the table does not hold (NXDOMAIN). */
  const NameError: byte := 3

  /** The response code for a question of a type other than A (NOTIMP). */
  const NotImplemented: byte := 4

  /** The response code a question leaves, or nothing when it is answered. */
  function Refusal(db: map<seq<byte>, Ipv4>, q: Question): Option<byte>
  {
    if q.qtype != A then Some(NotImplemented)
    else if Find(db, q.name).None? then Some(NameError)
    else None
  }

  /** The answers one question gets: an A record for a question of type A whose name the table holds, none otherwise. */
  function AnswerFor(db: map<seq<byte>, Ipv4>, q: Question): (rs: seq<Record>)
    ensures |rs| == 1 <==> Refusal(db, q).None?
    ensures |rs| <= 1
    ensures rs != [] ==> rs[0].name == q.name && GetIp(rs[0]) == Find(db, q.name)
    ensures rs != [] ==> rs[0] == NewARecord(q.name, Find(db, q.name).value, AnswerTtl)
  {
    if Refusal(db, q).None? then [NewARecord(q.name, Find(db, q.name).value, AnswerTtl)] else []
  }

  /** The answers the questions `qs` get, in order: A records of class IN that live five minutes. */
  function Resolved(db: map<seq<byte>, Ipv4>, qs: seq<Question>): (rs: seq<Record>)
    ensures |rs| <= |qs|
    ensures forall i :: 0 <= i < |rs| ==>
      rs[i].rtype == A && rs[i].rclass == IN && rs[i].ttl == AnswerTtl && |rs[i].data| == 4
  {
    if qs == [] then [] else AnswerFor(db, qs[0]) + Resolved(db, qs[1..])
  }

  /** One pass of the loop over the questions: answer the question, or set the response code. */
  function AnswerQuestion(db: map<seq<byte>, Ipv4>, response: Message, q: Question): (r: Message)
    ensures Extends(r, response, AnswerFor(db, q))
    ensures r.header.rcode == if Refusal(db, q).Some? then Refusal(db, q).value else response.header.rcode
  {
    match q.qtype
    case A =>
      (match Find(db, q.name)
       case Some(ip) =>
         response.(answers := response.answers + [NewARecord(q.name, ip, AnswerTtl)],
                   header := response.header.(ancount := (response.header.ancount + 1) % 0x1_0000))
       case None => response.(header := response.header.(rcode := NameError)))
    case _ => response.(header := response.header.(rcode := NotImplemented))
  }

  /**
   * The loop over the questions, one pass per question in order. It appends
   * the resolved answers, adds their number to the answer count modulo 2^16,
   * may set the response code, and changes nothing else.
   */
  function AnswerAll(db: map<seq<byte>, Ipv4>, response: Message, qs: seq<Question>): (r: Message)
    ensures Extends(r, response, Resolved(db, qs))
    decreases |qs|
  {
    if qs == [] then
      assert response.answers + [] == response.answers;
      response
    else
      var next := AnswerQuestion(db, response, qs[0]);
      ExtendsTwice(response, next, AnswerAll(db, next, qs[1..]), AnswerFor(db, qs[0]), Resolved(db, qs[1..]));
      AnswerAll(db, next, qs[1..])
  }

  /**
   * The response to a parsed query: the query's header with qr and ra set,
   * the answer count raised by the number of answers modulo 2^16 and
   * possibly a new response code; the query's questions; one answer per
   * resolved question; no authority or additional records.
   */
  function Respond(db: map<seq<byte>, Ipv4>, query: Message): (r: Message)
    ensures r.header == query.header.(qr := true, ra := true,
                                      ancount := (query.header.ancount + |Resolved(db, query.questions)|) % 0x1_0000,
                                      rcode := r.header.rcode)
    ensures r.questions == query.questions
    ensures r.answers == Resolved(db, query.questions)
    ensures r.authorities == [] && r.additionals == []
  {
    assert [] + Resolved(db, query.questions) == Resolved(db, query.questions);
    AnswerAll(db, NewResponse(query), query.questions)
  }

  /**
   * What the handler sends for a datagram: nothing when it does not parse,
   * otherwise the written response; a failure to write stands for the
   * panic of `encode_name`.
   */
  function Serve(db: map<seq<byte>, Ipv4>, data: seq<byte>): (r: Option<Result<seq<byte>>>)
    ensures r.None? <==> ParseMessage(data).Err?
  {
    match ParseMessage(data)
    case Err(_) => None
    case Ok(query) => Some(MessageBytes(Respond(db, query)))
  }

  /** `handle_query` without its socket and its log lines. */
  method HandleQuery(db: NameTable, data: seq<byte>) returns (reply: Option<Result<seq<byte>>>)
    ensures reply == Serve(db.records, data)
  {
    var parsed := MessageFromBytes(data);
    if parsed.Err? {
      return None;
    }
    var response := AnswerQuestions(db, parsed.value);
    var bytes := MessageToBytes(response);
    return Some(bytes);
  }

  /** The response built for a parsed query: copy the query, then answer its questions in order. */
  method AnswerQuestions(db: NameTable, query: Message) returns (response: Message)
    ensures response == Respond(db.records, query)
  {
    response := NewResponse(query);
    var i := 0;
    while i < |query.questions|
      invariant 0 <= i <= |query.questions|
      invariant AnswerAll(db.records, response, query.questions[i..]) == Respond(db.records, query)
    {
      assert query.questions[i..][0] == query.questions[i] && query.questions[i..][1..] == query.questions[i + 1..];
      response := AnswerOne(db, response, query.questions[i]);
      i := i + 1;
    }
  }

  /** The body of the loop over the questions, step by step: the statement form of `AnswerQuestion`. */
  method AnswerOne(db: NameTable, response: Message, question: Question) returns (out: Message)
    ensures out == AnswerQuestion(db.records, response, question)
  {
    out := response;
    match question.qtype {
      case A =>
        var ip := db.Lookup(question.name);
        match ip {
          case Some(addr) =>
            out := out.(answers := out.answers + [NewARecord(question.name, addr, AnswerTtl)]);
            out := out.(header := out.header.(ancount := (out.header.ancount + 1) % 0x1_0000));
          case None =>
            out := out.(header := out.header.(rcode := NameError));
        }
      case _ =>
        out := out.(header := out.header.(rcode := NotImplemented));
    }
  }

  /**
   * `out` is `r` with the records `added` appended to its answers, their
   * number added to the answer count modulo 2^16 and perhaps another
   * response code; nothing else differs.
   */
  predicate Extends(out: Message, r: Message, added: seq<Record>)
  {
    out.answers == r.answers + added
    && out.header == r.header.(ancount := (r.header.ancount + |added|) % 0x1_0000, rcode := out.header.rcode)
    && out.questions == r.questions
    && out.authorities == r.authorities && out.additionals == r.additionals
  }

  /** Two extensions in a row are one extension by both lists of records. */
  lemma ExtendsTwice(a: Message, b: Message, c: Message, x: seq<Record>, y: seq<Record>)
    requires Extends(b, a, x) && Extends(c, b, y)
    ensures Extends(c, a, x + y)
  {
    assert a.answers + x + y == a.answers + (x + y);
    assert ((a.header.ancount + |x|) % 0x1_0000 + |y|) % 0x1_0000 == (a.header.ancount + |x + y|) % 0x1_0000;
  }

  /** When every question is answered, the response code is the one the loop started with. */
  lemma {:induction false} AllAnsweredKeepsRcode(db: map<seq<byte>, Ipv4>, response: Message, qs: seq<Question>)
    requires forall k :: 0 <= k < |qs| ==> Refusal(db, qs[k]).None?
    ensures AnswerAll(db, response, qs).header.rcode == response.header.rcode
    decreases |qs|
  {
    if qs != [] {
      assert forall k :: 0 <= k < |qs| - 1 ==> qs[1..][k] == qs[k + 1];
      AllAnsweredKeepsRcode(db, AnswerQuestion(db, response, qs[0]), qs[1..]);
    }
  }

  /** The response code is the one left by the last question not answered. */
  lemma {:induction false} LastRefusalWins(db: map<seq<byte>, Ipv4>, response: Message, qs: seq<Question>, j: nat)
    requires j < |qs| && Refusal(db, qs[j]).Some?
    requires forall k :: j < k < |qs| ==> Refusal(db, qs[k]).None?
    ensures AnswerAll(db, response, qs).header.rcode == Refusal(db, qs[j]).value
    decreases |qs|
  {
    assert forall k :: 0 <= k < |qs| - 1 ==> qs[1..][k] == qs[k + 1];
    if j == 0 {
      AllAnsweredKeepsRcode(db, AnswerQuestion(db, response, qs[0]), qs[1..]);
    } else {
      LastRefusalWins(db, AnswerQuestion(db, response, qs[0]), qs[1..], j - 1);
    }
  }

  /** Every answer carries the name of a question. */
  lemma {:induction false} ResolvedNames(db: map<seq<byte>, Ipv4>, qs: seq<Question>)
    requires QuestionNamesEncode(qs)
    ensures RecordNamesEncode(Resolved(db, qs))
    decreases |qs|
  {
    if qs != [] {
      assert forall k :: 0 <= k < |qs| - 1 ==> qs[1..][k] == qs[k + 1];
      ResolvedNames(db, qs[1..]);
    }
  }

  /**
   * The handler sends nothing exactly when the datagram does not parse, and
   * it fails to write its response exactly when a question's name has a
   * label longer than 63 bytes, which the parser accepts.
   */
  lemma ServeOutcome(db: map<seq<byte>, Ipv4>, data: seq<byte>)
    ensures Serve(db, data).None? <==> ParseMessage(data).Err?
    ensures ParseMessage(data).Ok? ==>
      (Serve(db, data).value.Ok? <==> QuestionNamesEncode(ParseMessage(data).value.questions))
  {
    if ParseMessage(data).Ok? {
      var query := ParseMessage(data).value;
      MessageBytesOk(Respond(db, query));
      if QuestionNamesEncode(query.questions) {
        ResolvedNames(db, query.questions);
      }
    }
  }

  /** The loop over a single question is one pass. */
  lemma AnswerSingle(db: map<seq<byte>, Ipv4>, response: Message, q: Question)
    ensures AnswerAll(db, response, [q]) == AnswerQuestion(db, response, q)
  {
    assert [q][1..] == [];
  }

  /** A question of type A for `localhost`, on the built-in table, gets 127.0.0.1 with a five-minute lifetime. */
  lemma LocalhostAnswered(id: u16)
    ensures var r := Respond(Seeded(), NewQuery(id, Localhost, A));
      r.answers == [Record(Localhost, A, IN, 300, [127, 0, 0, 1])]
      && r.header.ancount == 1 && r.header.rcode == 0 && r.header.qr && r.header.ra && r.header.id == id
  {
    SeededLookups();
    AnswerSingle(Seeded(), NewResponse(NewQuery(id, Localhost, A)), NewQuestion(Localhost, A));
  }

  /** A question of type A for a name the table does not hold gets no answer and the name-error code. */
  lemma UnknownNameRefused(db: map<seq<byte>, Ipv4>, id: u16, name: seq<byte>)
    requires Find(db, name).None?
    ensures var r := Respond(db, NewQuery(id, name, A));
      r.answers == [] && r.header.ancount == 0 && r.header.rcode == NameError
      && HeaderBytes(r.header)[2] == 0x81 && HeaderBytes(r.header)[3] == 0x83
  {
    AnswerSingle(db, NewResponse(NewQuery(id, name, A)), NewQuestion(name, A));
    NameErrorFlagBytes(id, true);
  }
}
