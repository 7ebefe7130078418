/**
 * Fixed-width integers, big-endian fields and the error type shared by
 * every part of the DNS wire codec.
 */
module Wire {

  /** An unsigned byte (`u8`). */
  type byte = x: int | 0 <= x < 0x100

  /** An unsigned 16-bit integer (`u16`). */
  type u16 = x: int | 0 <= x < 0x1_0000

  /** An unsigned 32-bit integer (`u32`). */
  type u32 = x: int | 0 <= x < 0x1_0000_0000

  /** The reasons a codec operation fails. */
  datatype Error =
    | HeaderTooShort       // header parse on fewer than 12 bytes
    | MessageTooShort      // message parse on fewer than 12 bytes
    | NameTruncated        // the cursor left the buffer before a terminator
    | LabelTruncated       // a declared label runs past the end of the buffer
    | PointerTruncated     // a compression pointer is the last byte of the buffer
    | TooManyJumps         // the bound on compression-pointer jumps was reached
    | QuestionTruncated    // no byte left where a question should start
    | QuestionIncomplete   // fewer than 4 bytes left for qtype and qclass
    | BadQuestionType      // a question's qtype is not one of the six known codes
    | BadQuestionClass     // a question's qclass is not IN
    | LabelTooLong         // encoding a label of more than 63 bytes

  datatype Option<+T> = None | Some(value: T)

  /** A value or the reason it could not be produced; usable with `:-`. */
  datatype Result<+T> = Ok(value: T) | Err(error: Error) {
    predicate IsFailure() { Err? }
    function PropagateFailure<U>(): Result<U> requires Err? { Err(error) }
    function Extract(): T requires Ok? { value }
  }

  /** `xs ++ r` when `r` succeeded; the same failure otherwise. */
  function Prepend<T>(xs: seq<T>, r: Result<seq<T>>): Result<seq<T>>
  {
    match r
    case Ok(rest) => Ok(xs + rest)
    case Err(e) => Err(e)
  }

  lemma PrependNothing<T>(r: Result<seq<T>>)
    ensures Prepend([], r) == r
  {
    if r.Ok? {
      assert [] + r.value == r.value;
    }
  }

  lemma PrependPrepend<T>(xs: seq<T>, ys: seq<T>, r: Result<seq<T>>)
    ensures Prepend(xs, Prepend(ys, r)) == Prepend(xs + ys, r)
  {
    if r.Ok? {
      assert xs + (ys + r.value) == xs + ys + r.value;
    }
  }

  /** `write_u16::<BigEndian>`: the high byte first. */
  function BE16(v: u16): (r: seq<byte>)
    ensures |r| == 2 && r[0] as int * 0x100 + r[1] == v
  {
    [v / 0x100, v % 0x100]
  }

  /** `write_u32::<BigEndian>`: the most significant byte first. */
  function BE32(v: u32): (r: seq<byte>)
    ensures |r| == 4 && ((r[0] as int * 0x100 + r[1]) * 0x100 + r[2]) * 0x100 + r[3] == v
  {
    BE16(v / 0x1_0000) + BE16(v % 0x1_0000)
  }

  /** `read_u16::<BigEndian>` at position `pos`. */
  function ReadU16(data: seq<byte>, pos: nat): u16
    requires pos + 2 <= |data|
  {
    data[pos] as int * 0x100 + data[pos + 1]
  }

  /** `read_u32::<BigEndian>` at position `pos`. */
  function ReadU32(data: seq<byte>, pos: nat): u32
    requires pos + 4 <= |data|
  {
    ReadU16(data, pos) * 0x1_0000 + ReadU16(data, pos + 2)
  }

  /** `bytes` sits at position `pos` of `data`. */
  predicate At(data: seq<byte>, pos: nat, bytes: seq<byte>)
  {
    pos + |bytes| <= |data| && forall i :: 0 <= i < |bytes| ==> data[pos + i] == bytes[i]
  }

  /** Two pieces written one after the other sit one after the other. */
  lemma AtSplit(data: seq<byte>, pos: nat, a: seq<byte>, b: seq<byte>)
    requires At(data, pos, a + b)
    ensures At(data, pos, a) && At(data, pos + |a|, b)
  {
    assert data[pos..pos + |a|] == (a + b)[..|a|];
    assert data[pos + |a|..pos + |a| + |b|] == (a + b)[|a|..];
  }

  /** One byte of placed bytes. */
  lemma AtByte(data: seq<byte>, pos: nat, bytes: seq<byte>, i: nat)
    requires At(data, pos, bytes) && i < |bytes|
    ensures data[pos + i] == bytes[i]
  {
  }

  /** `AtSplit` with the second piece's position given. */
  lemma AtSplitAt(data: seq<byte>, pos: nat, a: seq<byte>, b: seq<byte>, next: nat)
    requires At(data, pos, a + b) && next == pos + |a|
    ensures At(data, pos, a) && At(data, next, b)
  {
    AtSplit(data, pos, a, b);
  }

  /** `CutSplit` with the second piece's position given. */
  lemma CutSplitAt(data: seq<byte>, pos: nat, a: seq<byte>, b: seq<byte>, next: nat)
    requires CutShort(data, pos, a + b) && next == pos + |a|
    ensures |data| < next ==> CutShort(data, pos, a)
    ensures |data| >= next ==> At(data, pos, a) && CutShort(data, next, b)
  {
    CutSplit(data, pos, a, b);
  }

  /** A buffer holds its pieces where they were put. */
  lemma AtConcat(a: seq<byte>, b: seq<byte>, c: seq<byte>)
    ensures At(a + b + c, |a|, b)
  {
    assert (a + b + c)[|a|..|a| + |b|] == b;
  }

  /** Bytes that close a buffer sit at the buffer's end. */
  lemma AtTail(a: seq<byte>, b: seq<byte>)
    ensures At(a + b, |a|, b)
  {
    assert (a + b)[|a|..|a| + |b|] == b;
  }

  /** Any slice of placed bytes sits at its own offset. */
  lemma AtSlice(data: seq<byte>, pos: nat, bytes: seq<byte>, i: nat, j: nat)
    requires At(data, pos, bytes) && i <= j <= |bytes|
    ensures At(data, pos + i, bytes[i..j])
  {
    var placed := data[pos..pos + |bytes|];
    assert forall t :: 0 <= t < j - i ==> data[pos + i..pos + j][t] == placed[i + t] == bytes[i..j][t];
  }

  /** `data` ends partway through `bytes` placed at `pos`. */
  predicate CutShort(data: seq<byte>, pos: nat, bytes: seq<byte>)
  {
    pos <= |data| < pos + |bytes| && forall i :: 0 <= i < |data| - pos ==> data[pos + i] == bytes[i]
  }

  /** A buffer cut short in two pieces: the cut falls in the first, or the first is whole and the cut falls in the second. */
  lemma CutSplit(data: seq<byte>, pos: nat, a: seq<byte>, b: seq<byte>)
    requires CutShort(data, pos, a + b)
    ensures |data| < pos + |a| ==> CutShort(data, pos, a)
    ensures |data| >= pos + |a| ==> At(data, pos, a) && CutShort(data, pos + |a|, b)
  {
    var k := |data| - pos;
    if k < |a| {
      assert (a + b)[..k] == a[..k];
    } else {
      assert data[pos..pos + |a|] == data[pos..][..|a|] == (a + b)[..k][..|a|] == a;
      assert data[pos + |a|..] == data[pos..][|a|..] == (a + b)[..k][|a|..] == b[..k - |a|];
    }
  }

  /** What a cut keeps of its bytes sits where they were put. */
  lemma CutKeeps(data: seq<byte>, pos: nat, bytes: seq<byte>, k: nat)
    requires CutShort(data, pos, bytes) && pos + k <= |data|
    ensures At(data, pos, bytes[..k])
  {
    assert data[pos..pos + k] == data[pos..][..k] == bytes[..|data| - pos][..k] == bytes[..k];
  }

  /** A 16-bit field read where its big-endian bytes sit. */
  lemma ReadAt16(data: seq<byte>, pos: nat, v: u16)
    requires At(data, pos, BE16(v))
    ensures ReadU16(data, pos) == v
  {
    assert data[pos] == BE16(v)[0] && data[pos + 1] == BE16(v)[1];
  }

  /** A 32-bit field read where its big-endian bytes sit. */
  lemma ReadAt32(data: seq<byte>, pos: nat, v: u32)
    requires At(data, pos, BE32(v))
    ensures ReadU32(data, pos) == v
  {
    AtSplit(data, pos, BE16(v / 0x1_0000), BE16(v % 0x1_0000));
    ReadAt16(data, pos, v / 0x1_0000);
    ReadAt16(data, pos + 2, v % 0x1_0000);
  }

  /** Reading back a 16-bit field written anywhere in a buffer gives its value. */
  lemma ReadBE16(prefix: seq<byte>, v: u16, suffix: seq<byte>)
    ensures ReadU16(prefix + BE16(v) + suffix, |prefix|) == v
  {
    var data := prefix + BE16(v) + suffix;
    assert data[|prefix|] == BE16(v)[0] && data[|prefix| + 1] == BE16(v)[1];
  }

  /** Reading back a 32-bit field written anywhere in a buffer gives its value. */
  lemma ReadBE32(prefix: seq<byte>, v: u32, suffix: seq<byte>)
    ensures ReadU32(prefix + BE32(v) + suffix, |prefix|) == v
  {
    var data := prefix + BE32(v) + suffix;
    assert data == prefix + BE16(v / 0x1_0000) + (BE16(v % 0x1_0000) + suffix);
    ReadBE16(prefix, v / 0x1_0000, BE16(v % 0x1_0000) + suffix);
    assert data == (prefix + BE16(v / 0x1_0000)) + BE16(v % 0x1_0000) + suffix;
    ReadBE16(prefix + BE16(v / 0x1_0000), v % 0x1_0000, suffix);
  }
}
