/**
 * Type and class codes, questions and resource records (sections 3.2.2,
 * 3.2.4, 4.1.2 and 4.1.3 of RFC 1035; AAAA from section 2.1 of RFC 3596).
 */
module RecordCodec {
  import opened Wire
  import opened NameCodec

  /** The closed set of record types the codec knows. */
  datatype RecordType = A | NS | CNAME | PTR | MX | AAAA

  /** The wire code of each type: the enum's discriminant. */
  function TypeCode(t: RecordType): u16
  {
    match t
    case A => 1
    case NS => 2
    case CNAME => 5
    case PTR => 12
    case MX => 15
    case AAAA => 28
  }

  /** `DnsRecordType::from_u16`: exactly the six known codes are recognised, each as its own type. */
  function TypeFromU16(v: u16): (r: Option<RecordType>)
    ensures r.Some? <==> v in {1, 2, 5, 12, 15, 28}
    ensures r.Some? ==> TypeCode(r.value) == v
  {
    match v
    case 1 => Some(A)
    case 2 => Some(NS)
    case 5 => Some(CNAME)
    case 12 => Some(PTR)
    case 15 => Some(MX)
    case 28 => Some(AAAA)
    case _ => None
  }

  /** The one class the codec knows: Internet. */
  datatype Class = IN

  function ClassCode(c: Class): u16
  {
    1
  }

  /** `DnsClass::from_u16`: only code 1 is recognised. */
  function ClassFromU16(v: u16): (r: Option<Class>)
    ensures r.Some? <==> v == 1
    ensures r.Some? ==> ClassCode(r.value) == v
  {
    if v == 1 then Some(IN) else None
  }

  /** Decoding a type's code gives the type back. */
  lemma TypeCodeRoundTrip(t: RecordType)
    ensures TypeFromU16(TypeCode(t)) == Some(t)
  {
  }

  /** An IPv4 address as its four octets. */
  type Ipv4 = s: seq<byte> | |s| == 4 witness [0, 0, 0, 0]

  datatype Question = Question(name: seq<byte>, qtype: RecordType, qclass: Class)

  /** `DnsQuestion::new`: the class is always IN. */
  function NewQuestion(name: seq<byte>, qtype: RecordType): (q: Question)
    ensures q.name == name && q.qtype == qtype && q.qclass == IN
  {
    Question(name, qtype, IN)
  }

  datatype Record = Record(name: seq<byte>, rtype: RecordType, rclass: Class, ttl: u32, data: seq<byte>)

  /** `DnsRecord::new_a_record`: an A record of class IN whose data is the address's four octets. */
  function NewARecord(name: seq<byte>, ip: Ipv4, ttl: u32): (r: Record)
    ensures r.name == name && r.rtype == A && r.rclass == IN && r.ttl == ttl
    ensures GetIp(r) == Some(ip)
  {
    Record(name, A, IN, ttl, ip)
  }

  /** `DnsRecord::get_ip`: the address of an A record whose data is exactly four bytes. */
  function GetIp(r: Record): (ip: Option<Ipv4>)
    ensures ip.Some? <==> r.rtype == A && |r.data| == 4
    ensures ip.Some? ==> ip.value == r.data
  {
    if r.rtype == A && |r.data| == 4 then Some(r.data) else None
  }

  /** The bytes after an encoded question name: type, then class. */
  function QuestionTail(qtype: u16, qclass: u16): (r: seq<byte>)
    ensures |r| == 4
  {
    BE16(qtype) + BE16(qclass)
  }

  /**
   * `DnsQuestion::to_bytes`: the encoded name, the type and the class.
   * A name that does not encode makes the source panic: here an error.
   */
  function QuestionBytes(q: Question): (r: Result<seq<byte>>)
    ensures r.Ok? <==> NameBytes(q.name).Ok?
    ensures r.Ok? ==> |r.value| == |q.name| + 6
  {
    var nb :- NameBytes(q.name);
    Ok(nb + QuestionTail(TypeCode(q.qtype), ClassCode(q.qclass)))
  }

  /**
   * The bytes after an encoded record name: type, class, ttl, the data's
   * length and the data. `data.len() as u16` keeps only the low 16 bits.
   */
  function RecordTail(rtype: u16, rclass: u16, ttl: u32, rdata: seq<byte>): (r: seq<byte>)
    ensures |r| == 10 + |rdata|
  {
    BE16(rtype) + BE16(rclass) + BE32(ttl) + BE16(|rdata| % 0x1_0000) + rdata
  }

  /** `DnsRecord::to_bytes`: the encoded name followed by the record's fixed fields and data. */
  function RecordBytes(r: Record): (b: Result<seq<byte>>)
    ensures b.Ok? <==> NameBytes(r.name).Ok?
    ensures b.Ok? ==> |b.value| == |r.name| + 12 + |r.data|
  {
    var nb :- NameBytes(r.name);
    Ok(nb + RecordTail(TypeCode(r.rtype), ClassCode(r.rclass), r.ttl, r.data))
  }

  /** The fields of a question tail read back where the tail sits. */
  lemma QuestionTailAt(data: seq<byte>, pos: nat, qtype: u16, qclass: u16)
    requires At(data, pos, QuestionTail(qtype, qclass))
    ensures ReadU16(data, pos) == qtype && ReadU16(data, pos + 2) == qclass
  {
    AtSplit(data, pos, BE16(qtype), BE16(qclass));
    ReadAt16(data, pos, qtype);
    ReadAt16(data, pos + 2, qclass);
  }

  /** The fixed fields of a record tail read back where its first ten bytes sit. */
  lemma RecordFieldsAt(data: seq<byte>, pos: nat, rtype: u16, rclass: u16, ttl: u32, rdata: seq<byte>)
    requires At(data, pos, RecordTail(rtype, rclass, ttl, rdata)[..10])
    ensures ReadU16(data, pos) == rtype && ReadU16(data, pos + 2) == rclass
    ensures ReadU32(data, pos + 4) == ttl && ReadU16(data, pos + 8) == |rdata| % 0x1_0000
  {
    var typeClass := BE16(rtype) + BE16(rclass);
    var length := BE16(|rdata| % 0x1_0000);
    assert RecordTail(rtype, rclass, ttl, rdata)[..10] == typeClass + BE32(ttl) + length;
    AtSplit(data, pos, typeClass + BE32(ttl), length);
    AtSplit(data, pos, typeClass, BE32(ttl));
    AtSplit(data, pos, BE16(rtype), BE16(rclass));
    ReadAt16(data, pos, rtype);
    ReadAt16(data, pos + 2, rclass);
    ReadAt32(data, pos + 4, ttl);
    ReadAt16(data, pos + 8, |rdata| % 0x1_0000);
  }

  /** The fields and the data of a record tail read back where the tail sits. */
  lemma RecordTailAt(data: seq<byte>, pos: nat, rtype: u16, rclass: u16, ttl: u32, rdata: seq<byte>)
    requires At(data, pos, RecordTail(rtype, rclass, ttl, rdata))
    ensures ReadU16(data, pos) == rtype && ReadU16(data, pos + 2) == rclass
    ensures ReadU32(data, pos + 4) == ttl && ReadU16(data, pos + 8) == |rdata| % 0x1_0000
    ensures At(data, pos + 10, rdata)
  {
    var tail := RecordTail(rtype, rclass, ttl, rdata);
    AtSlice(data, pos, tail, 0, 10);
    assert tail[0..10] == tail[..10];
    RecordFieldsAt(data, pos, rtype, rclass, ttl, rdata);
    AtSlice(data, pos, tail, 10, |tail|);
    assert tail[10..|tail|] == rdata;
  }
}
