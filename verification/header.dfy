/**
 * The 12-byte DNS message header (section 4.1.1 of RFC 1035): a transaction
 * id, a 16-bit flags word and four 16-bit section counts, all big-endian.
 */
module HeaderCodec {
  import opened Wire

  datatype Header = Header(
    id: u16,
    qr: bool,       // response (true) or query (false)
    opcode: byte,   // 4 bits on the wire
    aa: bool,
    tc: bool,
    rd: bool,
    ra: bool,
    z: byte,        // 3 bits on the wire
    rcode: byte,    // 4 bits on the wire
    qdcount: u16,
    ancount: u16,
    nscount: u16,
    arcount: u16)

  /** The length of a serialized header. */
  const HeaderSize: nat := 12

  /** The flag bit of weight `weight` (a power of two) is set in `flags`. */
  predicate Bit(flags: int, weight: nat)
    requires weight > 0
  {
    (flags / weight) % 2 == 1
  }

  /**
   * A header for a fresh query: recursion desired, everything else clear.
   * The source draws `id` at random; here it is a parameter.
   */
  function NewHeader(id: u16): (h: Header)
    ensures h.id == id && h.rd && !h.qr && !h.aa && !h.tc && !h.ra
    ensures h.opcode == 0 && h.z == 0 && h.rcode == 0
    ensures h.qdcount == 0 && h.ancount == 0 && h.nscount == 0 && h.arcount == 0
  {
    Header(id, false, 0, false, false, true, false, 0, 0, 0, 0, 0, 0)
  }

  /** 1 for a set flag, 0 for a clear one. */
  function BitOf(b: bool): nat
  {
    if b then 1 else 0
  }

  /**
   * The flags word. The fields occupy disjoint bit ranges, so the source's
   * bitwise ORs of shifted, masked fields are sums of multiples of powers of two:
   * qr at bit 15, opcode at 11..14, aa at 10, tc at 9, rd at 8, ra at 7,
   * z at 4..6 and rcode at 0..3. Out-of-range opcode, z and rcode are masked.
   */
  function Flags(h: Header): (f: u16)
    ensures Bit(f, 0x8000) == h.qr && (f / 0x800) % 0x10 == h.opcode % 0x10
    ensures Bit(f, 0x400) == h.aa && Bit(f, 0x200) == h.tc && Bit(f, 0x100) == h.rd && Bit(f, 0x80) == h.ra
    ensures (f / 0x10) % 8 == h.z % 8 && f % 0x10 == h.rcode % 0x10
  {
    FieldsLayout(BitOf(h.qr), h.opcode % 0x10, BitOf(h.aa), BitOf(h.tc), BitOf(h.rd),
      BitOf(h.ra), h.z % 8, h.rcode % 0x10);
    BitOf(h.qr) * 0x8000 + (h.opcode % 0x10) * 0x800 + BitOf(h.aa) * 0x400
      + BitOf(h.tc) * 0x200 + BitOf(h.rd) * 0x100 + BitOf(h.ra) * 0x80
      + (h.z % 8) * 0x10 + h.rcode % 0x10
  }

  /** Each field of a packed flags word is recovered by shifting and masking. */
  lemma FieldsLayout(qr: int, op: int, aa: int, tc: int, rd: int, ra: int, z: int, rc: int)
    requires 0 <= qr < 2 && 0 <= op < 0x10 && 0 <= aa < 2 && 0 <= tc < 2
    requires 0 <= rd < 2 && 0 <= ra < 2 && 0 <= z < 8 && 0 <= rc < 0x10
    ensures var f := qr * 0x8000 + op * 0x800 + aa * 0x400 + tc * 0x200 + rd * 0x100
                     + ra * 0x80 + z * 0x10 + rc;
      0 <= f < 0x1_0000 &&
      (f / 0x8000) % 2 == qr && (f / 0x800) % 0x10 == op && (f / 0x400) % 2 == aa &&
      (f / 0x200) % 2 == tc && (f / 0x100) % 2 == rd && (f / 0x80) % 2 == ra &&
      (f / 0x10) % 8 == z && f % 0x10 == rc
  {
    var f := qr * 0x8000 + op * 0x800 + aa * 0x400 + tc * 0x200 + rd * 0x100
             + ra * 0x80 + z * 0x10 + rc;
    // the part of the word above each field boundary
    var p11 := qr * 0x10 + op;
    var p10 := p11 * 2 + aa;
    var p9 := p10 * 2 + tc;
    var p8 := p9 * 2 + rd;
    var p7 := p8 * 2 + ra;
    var p4 := p7 * 8 + z;
    assert f / 0x10 == p4;
    assert p4 % 8 == z && p4 / 8 == p7;
    assert f / 0x80 == p7;
    assert p7 % 2 == ra && p7 / 2 == p8;
    assert f / 0x100 == p8;
    assert p8 % 2 == rd && p8 / 2 == p9;
    assert f / 0x200 == p9;
    assert p9 % 2 == tc && p9 / 2 == p10;
    assert f / 0x400 == p10;
    assert p10 % 2 == aa && p10 / 2 == p11;
    assert f / 0x800 == p11;
    assert f / 0x8000 == qr;
  }

  /** `DnsHeader::to_bytes`: id, flags and the four counts, each big-endian. */
  function HeaderBytes(h: Header): (r: seq<byte>)
    ensures |r| == HeaderSize
  {
    BE16(h.id) + BE16(Flags(h)) + BE16(h.qdcount) + BE16(h.ancount)
      + BE16(h.nscount) + BE16(h.arcount)
  }

  /** `DnsHeader::from_bytes`: fails on fewer than 12 bytes, else unpacks the fields. */
  function HeaderFromBytes(data: seq<byte>): (r: Result<Header>)
    ensures r.Err? <==> |data| < HeaderSize
    ensures r.Err? ==> r.error == HeaderTooShort
  {
    if |data| < HeaderSize then Err(HeaderTooShort)
    else
      var flags := ReadU16(data, 2);
      Ok(Header(
        ReadU16(data, 0),
        Bit(flags, 0x8000),
        (flags / 0x800) % 0x10,
        Bit(flags, 0x400),
        Bit(flags, 0x200),
        Bit(flags, 0x100),
        Bit(flags, 0x80),
        (flags / 0x10) % 8,
        flags % 0x10,
        ReadU16(data, 4),
        ReadU16(data, 6),
        ReadU16(data, 8),
        ReadU16(data, 10)))
  }

  /** `h` with the opcode, z and rcode masked to their wire widths. */
  function Masked(h: Header): Header
  {
    h.(opcode := h.opcode % 0x10, z := h.z % 8, rcode := h.rcode % 0x10)
  }

  lemma MaskedInRange(h: Header)
    requires InRange(h)
    ensures Masked(h) == h
  {
  }

  /** The three narrow fields fit their wire widths. */
  predicate InRange(h: Header)
  {
    h.opcode < 0x10 && h.z < 8 && h.rcode < 0x10
  }

  /**
   * Decoding the serialized header, followed by anything, gives the header back
   * with its narrow fields masked to their widths.
   */
  lemma HeaderMasking(h: Header, rest: seq<byte>)
    ensures HeaderFromBytes(HeaderBytes(h) + rest) == Ok(Masked(h))
  {
    var data := HeaderBytes(h) + rest;
    assert data == [] + BE16(h.id) + (data[2..]);
    ReadBE16([], h.id, data[2..]);
    assert data == data[..2] + BE16(Flags(h)) + data[4..];
    ReadBE16(data[..2], Flags(h), data[4..]);
    assert data == data[..4] + BE16(h.qdcount) + data[6..];
    ReadBE16(data[..4], h.qdcount, data[6..]);
    assert data == data[..6] + BE16(h.ancount) + data[8..];
    ReadBE16(data[..6], h.ancount, data[8..]);
    assert data == data[..8] + BE16(h.nscount) + data[10..];
    ReadBE16(data[..8], h.nscount, data[10..]);
    assert data == data[..10] + BE16(h.arcount) + data[12..];
    ReadBE16(data[..10], h.arcount, data[12..]);
  }

  /** The round trip: a header whose narrow fields fit is reproduced exactly. */
  lemma HeaderRoundTrip(h: Header, rest: seq<byte>)
    requires InRange(h)
    ensures HeaderFromBytes(HeaderBytes(h) + rest) == Ok(h)
  {
    MaskedInRange(h);
    HeaderMasking(h, rest);
  }

  /**
   * The flag bytes of a name-error response: qr, rd and rcode 3 give 0x81 0x03;
   * with ra also set, as every response built by the server has it, 0x81 0x83.
   */
  lemma NameErrorFlagBytes(id: u16, ra: bool)
    ensures var h := Header(id, true, 0, false, false, true, ra, 0, 3, 0, 0, 0, 0);
      HeaderBytes(h)[2] == 0x81 && HeaderBytes(h)[3] == if ra then 0x83 else 0x03
  {
    var h := Header(id, true, 0, false, false, true, ra, 0, 3, 0, 0, 0, 0);
    assert Flags(h) == if ra then 0x8183 else 0x8103;
  }
}
