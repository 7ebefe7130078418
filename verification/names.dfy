/**
 * Domain names on the wire (sections 3.1 and 4.1.4 of RFC 1035): a name is a
 * run of length-prefixed labels closed by a zero byte; when decoding, a byte
 * whose two top bits are set starts a two-byte pointer to an absolute offset.
 *
 * A name is the byte sequence of its text, labels separated by '.'.
 */
module NameCodec {
  import opened Wire

  type Label = seq<byte>

  /** The byte of '.', the label separator in a name's text. */
  const Dot: byte := 0x2E

  /** The longest label `encode_name` accepts. */
  const MaxLabel: nat := 63

  // ---------------------------------------------------------------------------
  // Splitting a name's text into labels and joining them back
  // ---------------------------------------------------------------------------

  /** `name.split('.')`: the pieces between dots, empty ones included. */
  function Split(s: seq<byte>): (r: seq<Label>)
    ensures |r| >= 1
    ensures forall i :: 0 <= i < |r| ==> Dot !in r[i]
    decreases |s|
  {
    if |s| == 0 then [[]]
    else
      var rest := Split(s[1..]);
      if s[0] == Dot then [[]] + rest
      else [[s[0]] + rest[0]] + rest[1..]
  }

  /** `parts.join(".")`. */
  function Join(ls: seq<Label>): seq<byte>
  {
    if |ls| == 0 then []
    else if |ls| == 1 then ls[0]
    else ls[0] + [Dot] + Join(ls[1..])
  }

  /** Joining the pieces of a split gives the text back. */
  lemma {:induction false} JoinSplit(s: seq<byte>)
    ensures Join(Split(s)) == s
    decreases |s|
  {
    if |s| > 0 {
      var rest := Split(s[1..]);
      JoinSplit(s[1..]);
      if s[0] == Dot {
        assert Split(s) == [[]] + rest;
        assert Join([[]] + rest) == [] + [Dot] + Join(rest);
      } else if |rest| == 1 {
        assert Split(s) == [[s[0]] + rest[0]];
      } else {
        assert Split(s) == [[s[0]] + rest[0]] + rest[1..];
        assert ([[s[0]] + rest[0]] + rest[1..])[1..] == rest[1..];
        assert Join(rest) == rest[0] + [Dot] + Join(rest[1..]);
      }
    }
  }

  lemma {:induction false} SplitWithoutDot(s: seq<byte>)
    requires Dot !in s
    ensures Split(s) == [s]
    decreases |s|
  {
    if |s| > 0 {
      SplitWithoutDot(s[1..]);
      assert [s[0]] + s[1..] == s;
    }
  }

  lemma {:induction false} SplitAfterLabel(l: Label, rest: seq<byte>)
    requires Dot !in l
    ensures Split(l + [Dot] + rest) == [l] + Split(rest)
    decreases |l|
  {
    var s := l + [Dot] + rest;
    if |l| == 0 {
      assert s[1..] == rest;
    } else {
      assert s[1..] == l[1..] + [Dot] + rest;
      SplitAfterLabel(l[1..], rest);
      assert [l[0]] + l[1..] == l;
    }
  }

  /** Splitting the join of dot-free labels gives the labels back. */
  lemma {:induction false} SplitJoin(ls: seq<Label>)
    requires |ls| >= 1
    requires forall i :: 0 <= i < |ls| ==> Dot !in ls[i]
    ensures Split(Join(ls)) == ls
    decreases |ls|
  {
    if |ls| == 1 {
      SplitWithoutDot(ls[0]);
    } else {
      SplitJoin(ls[1..]);
      SplitAfterLabel(ls[0], Join(ls[1..]));
      assert [ls[0]] + ls[1..] == ls;
    }
  }

  // ---------------------------------------------------------------------------
  // Encoding (`DnsQuestion::encode_name`)
  // ---------------------------------------------------------------------------

  /** Every label's length fits in its one-byte length prefix. */
  predicate ByteSized(ls: seq<Label>)
  {
    forall i :: 0 <= i < |ls| ==> |ls[i]| < 0x100
  }

  /** Every label is at most 63 bytes long. */
  predicate LabelsFit(ls: seq<Label>)
  {
    forall i :: 0 <= i < |ls| ==> |ls[i]| <= MaxLabel
  }

  /** Every label is non-empty and at most 63 bytes long. */
  predicate ValidLabels(ls: seq<Label>)
  {
    forall i :: 0 <= i < |ls| ==> 0 < |ls[i]| <= MaxLabel
  }

  /** A name that encodes and decodes back to itself: no empty and no overlong label. */
  predicate ValidName(name: seq<byte>)
  {
    ValidLabels(Split(name))
  }

  /** Each label as its length byte followed by its bytes, without a terminator. */
  function LabelRun(ls: seq<Label>): seq<byte>
    requires ByteSized(ls)
  {
    if ls == [] then [] else [|ls[0]|] + ls[0] + LabelRun(ls[1..])
  }

  /** A complete encoded name: the label run closed by a zero byte. */
  function LabelsBytes(ls: seq<Label>): seq<byte>
    requires ByteSized(ls)
  {
    LabelRun(ls) + [0]
  }

  lemma {:induction false} LabelRunAppend(ls: seq<Label>, l: Label)
    requires ByteSized(ls) && |l| < 0x100
    ensures ByteSized(ls + [l])
    ensures LabelRun(ls + [l]) == LabelRun(ls) + [|l|] + l
    decreases |ls|
  {
    if ls == [] {
      assert [l][1..] == [];
    } else {
      assert (ls + [l])[1..] == ls[1..] + [l];
      LabelRunAppend(ls[1..], l);
    }
  }

  /** The encoding of labels is one byte longer than their join, plus the terminator. */
  lemma {:induction false} EncodedLength(ls: seq<Label>)
    requires |ls| >= 1 && ByteSized(ls)
    ensures |LabelsBytes(ls)| == |Join(ls)| + 2
    decreases |ls|
  {
    if |ls| > 1 {
      EncodedLength(ls[1..]);
    }
  }

  /**
   * What `encode_name` produces: for each '.'-separated label its length and
   * bytes, then a zero byte. A label over 63 bytes makes the source panic;
   * here that is the error LabelTooLong. The encoding is always two bytes
   * longer than the name's text (one length byte per label, one terminator,
   * no dots).
   */
  function NameBytes(name: seq<byte>): (r: Result<seq<byte>>)
    ensures r.Ok? <==> LabelsFit(Split(name))
    ensures r.Err? ==> r.error == LabelTooLong
    ensures r.Ok? ==> |r.value| == |name| + 2
  {
    var labels := Split(name);
    if LabelsFit(labels) then
      EncodedLength(labels);
      JoinSplit(name);
      Ok(LabelsBytes(labels))
    else
      Err(LabelTooLong)
  }

  /** `DnsQuestion::encode_name`, label by label. */
  method EncodeName(name: seq<byte>) returns (r: Result<seq<byte>>)
    ensures r == NameBytes(name)
  {
    var parts := Split(name);
    var encoded: seq<byte> := [];
    for i := 0 to |parts|
      invariant LabelsFit(parts[..i])
      invariant encoded == LabelRun(parts[..i])
    {
      var part := parts[i];
      if |part| > MaxLabel {
        return Err(LabelTooLong);
      }
      LabelRunAppend(parts[..i], part);
      assert parts[..i + 1] == parts[..i] + [part];
      encoded := encoded + [|part|] + part;
    }
    assert parts[..|parts|] == parts;
    encoded := encoded + [0];
    return Ok(encoded);
  }

  /** "google.com" encodes as [6]google[3]com[0]. */
  lemma GoogleEncoding()
    ensures NameBytes(Google + [Dot] + Com)
         == Ok([6] + Google + [3] + Com + [0])
  {
    var ls := [Google, Com];
    assert Join(ls) == Google + [Dot] + Com by {
      assert ls[1..] == [Com];
    }
    SplitJoin(ls);
    assert LabelsFit(ls);
    TwoLabelRun(Google, Com);
  }

  lemma TwoLabelRun(a: Label, b: Label)
    requires |a| < 0x100 && |b| < 0x100
    ensures ByteSized([a, b])
    ensures LabelRun([a, b]) == [|a|] + a + [|b|] + b
  {
    assert [a, b][1..] == [b];
    assert LabelRun([b]) == [|b|] + b + LabelRun([]);
  }

  /** The bytes of "google" and "com". */
  const Google: seq<byte> := [0x67, 0x6F, 0x6F, 0x67, 0x6C, 0x65]
  const Com: seq<byte> := [0x63, 0x6F, 0x6D]

  /** A 64-byte label does not encode. */
  lemma LongLabelRejected(l: Label)
    requires |l| == 64 && Dot !in l
    ensures NameBytes(l) == Err(LabelTooLong)
  {
    SplitWithoutDot(l);
  }

  // ---------------------------------------------------------------------------
  // Decoding (`DnsQuestion::decode_name`)
  // ---------------------------------------------------------------------------

  /** `(b & 0xC0) == 0xC0`: the byte starts a compression pointer. */
  predicate IsPointer(b: byte)
  {
    b >= 0xC0
  }

  /** `((hi & 0x3F) << 8) | lo`: the absolute offset a pointer refers to. */
  function PointerTarget(hi: byte, lo: byte): (t: nat)
    ensures t < 0x4000
    ensures t == (hi % 0x40) * 0x100 + lo
  {
    (hi % 0x40) * 0x100 + lo
  }

  /** The ways reading a name can fail. */
  predicate NameDecodeError(e: Error)
  {
    e.NameTruncated? || e.LabelTruncated? || e.PointerTruncated? || e.TooManyJumps?
  }

  /** Labels read from a buffer and the cursor the read leaves behind. */
  datatype NameRead = NameRead(labels: seq<Label>, next: nat)

  /** A decoded name's text and the cursor after it. */
  datatype NameAt = NameAt(name: seq<byte>, next: nat)

  /**
   * The labels found from `pos` on, following at most `jumps` pointers.
   * The cursor is past the terminating zero when no pointer was followed,
   * and two bytes past the FIRST pointer otherwise: the recursive read at a
   * pointer's target has its cursor replaced.
   */
  function ReadLabels(data: seq<byte>, pos: nat, jumps: nat): (r: Result<NameRead>)
    ensures r.Ok? ==> pos < r.value.next <= |data|
    ensures r.Err? ==> NameDecodeError(r.error)
    decreases jumps, if pos <= |data| then |data| - pos else 0
  {
    if pos >= |data| then Err(NameTruncated)
    else if IsPointer(data[pos]) then
      if pos + 1 >= |data| then Err(PointerTruncated)
      else if jumps == 0 then Err(TooManyJumps)
      else match ReadLabels(data, PointerTarget(data[pos], data[pos + 1]), jumps - 1)
        case Ok(r) => Ok(NameRead(r.labels, pos + 2))
        case Err(e) => Err(e)
    else if data[pos] == 0 then Ok(NameRead([], pos + 1))
    else if pos + 1 + data[pos] > |data| then Err(LabelTruncated)
    else Extend([data[pos + 1..pos + 1 + data[pos]]], ReadLabels(data, pos + 1 + data[pos], jumps))
  }

  /** Labels already read, put in front of those a successful read finds. */
  function Extend(parts: seq<Label>, r: Result<NameRead>): Result<NameRead>
  {
    match r
    case Ok(x) => Ok(NameRead(parts + x.labels, x.next))
    case Err(e) => Err(e)
  }

  /**
   * The state of the decoding loop: labels already read, whether a pointer was
   * followed and where the cursor then ends, and the read still to come.
   */
  function Resume(parts: seq<Label>, r: Result<NameRead>, jumped: bool, jumpOffset: nat): Result<NameRead>
  {
    match Extend(parts, r)
    case Ok(x) => Ok(NameRead(x.labels, if jumped then jumpOffset else x.next))
    case Err(e) => Err(e)
  }

  lemma ResumeStart(r: Result<NameRead>, jumpOffset: nat)
    ensures Resume([], r, false, jumpOffset) == r
  {
    match r
    case Ok(x) => assert [] + x.labels == x.labels;
    case Err(_) =>
  }

  lemma ResumeLabel(parts: seq<Label>, l: Label, r: Result<NameRead>, jumped: bool, jumpOffset: nat)
    ensures Resume(parts, Extend([l], r), jumped, jumpOffset) == Resume(parts + [l], r, jumped, jumpOffset)
  {
    match r
    case Ok(x) => assert parts + ([l] + x.labels) == parts + [l] + x.labels;
    case Err(_) =>
  }

  /**
   * How many pointers one decode may follow. The source has no bound and
   * runs forever on a pointer loop; the model stops after as many pointers
   * as the buffer has bytes. That every decode which ends in the source
   * follows fewer pointers than this is not proved here.
   */
  function JumpLimit(data: seq<byte>): nat
  {
    |data|
  }

  /** What `decode_name(data, &mut offset)` returns, with the cursor it leaves. */
  function DecodedName(data: seq<byte>, offset: nat): (r: Result<NameAt>)
    ensures r.Ok? ==> offset < r.value.next <= |data|
    ensures r.Err? ==> NameDecodeError(r.error)
  {
    match ReadLabels(data, offset, JumpLimit(data))
    case Ok(r) => Ok(NameAt(Join(r.labels), r.next))
    case Err(e) => Err(e)
  }

  /**
   * `DnsQuestion::decode_name`: the loop over length bytes and pointers,
   * with a count of the jumps still allowed.
   */
  method DecodeName(data: seq<byte>, offset: nat) returns (r: Result<NameAt>)
    ensures r == DecodedName(data, offset)
  {
    var nameParts: seq<Label> := [];
    var jumped := false;
    var jumpOffset: nat := offset;
    var pos: nat := offset;
    var jumpsLeft := JumpLimit(data);
    ResumeStart(ReadLabels(data, pos, jumpsLeft), jumpOffset);
    while true
      invariant Resume(nameParts, ReadLabels(data, pos, jumpsLeft), jumped, jumpOffset)
             == ReadLabels(data, offset, JumpLimit(data))
      decreases jumpsLeft, if pos <= |data| then |data| - pos else 0
    {
      if pos >= |data| {
        return Err(NameTruncated);
      }
      var length := data[pos];
      if IsPointer(length) {
        if pos + 1 >= |data| {
          return Err(PointerTruncated);
        }
        if jumpsLeft == 0 {
          return Err(TooManyJumps);
        }
        if !jumped {
          jumpOffset := pos + 2;
        }
        pos := PointerTarget(length, data[pos + 1]);
        jumped := true;
        jumpsLeft := jumpsLeft - 1;
        continue;
      }
      pos := pos + 1;
      if length == 0 {
        break;
      }
      if pos + length > |data| {
        return Err(LabelTruncated);
      }
      ResumeLabel(nameParts, data[pos..pos + length], ReadLabels(data, pos + length, jumpsLeft), jumped, jumpOffset);
      nameParts := nameParts + [data[pos..pos + length]];
      pos := pos + length;
    }
    assert nameParts + [] == nameParts;
    if jumped {
      pos := jumpOffset;
    }
    return Ok(NameAt(Join(nameParts), pos));
  }

  // ---------------------------------------------------------------------------
  // Properties of decoding
  // ---------------------------------------------------------------------------

  /**
   * Reading across a run of plain labels yields those labels followed by
   * whatever the bytes after the run yield, with that read's cursor.
   */
  lemma ReadRun(prefix: seq<byte>, ls: seq<Label>, rest: seq<byte>, jumps: nat)
    requires ValidLabels(ls)
    ensures ByteSized(ls)
    ensures var data := prefix + LabelRun(ls) + rest;
      ReadLabels(data, |prefix|, jumps) == Extend(ls, ReadLabels(data, |prefix| + |LabelRun(ls)|, jumps))
  {
    AtConcat(prefix, LabelRun(ls), rest);
    ReadRunAt(prefix + LabelRun(ls) + rest, |prefix|, ls, jumps);
  }

  /** The same, for a run found at `pos` in `data`. */
  lemma {:induction false} ReadRunAt(data: seq<byte>, pos: nat, ls: seq<Label>, jumps: nat)
    requires ValidLabels(ls)
    ensures ByteSized(ls)
    requires At(data, pos, LabelRun(ls))
    ensures ReadLabels(data, pos, jumps) == Extend(ls, ReadLabels(data, pos + |LabelRun(ls)|, jumps))
    decreases |ls|
  {
    if ls == [] {
      assert pos + |LabelRun(ls)| == pos;
      ExtendNothing(ReadLabels(data, pos, jumps));
    } else {
      var next := pos + 1 + |ls[0]|;
      var rest := ReadLabels(data, pos + |LabelRun(ls)|, jumps);
      ReadRunCons(data, pos, ls, jumps);
      ReadRunAt(data, next, ls[1..], jumps);
      ExtendExtend(ls[0], ls[1..], rest);
      assert [ls[0]] + ls[1..] == ls;
    }
  }

  /** The first label of a run, read at `pos`; the rest of the run follows it. */
  lemma ReadRunCons(data: seq<byte>, pos: nat, ls: seq<Label>, jumps: nat)
    requires ValidLabels(ls) && ls != []
    ensures ByteSized(ls)
    requires At(data, pos, LabelRun(ls))
    ensures At(data, pos + 1 + |ls[0]|, LabelRun(ls[1..]))
    ensures |LabelRun(ls)| == 1 + |ls[0]| + |LabelRun(ls[1..])|
    ensures ReadLabels(data, pos, jumps) == Extend([ls[0]], ReadLabels(data, pos + 1 + |ls[0]|, jumps))
  {
    var l := ls[0];
    AtSplit(data, pos, [|l| as byte] + l, LabelRun(ls[1..]));
    AtSplit(data, pos, [|l| as byte], l);
    AtByte(data, pos, [|l| as byte], 0);
    ReadOneLabel(data, pos, l, jumps);
  }

  /** One plain label at `pos`: its bytes, then whatever follows. */
  lemma ReadOneLabel(data: seq<byte>, pos: nat, l: Label, jumps: nat)
    requires 0 < |l| <= MaxLabel && pos + 1 + |l| <= |data|
    requires data[pos] == |l| && data[pos + 1..pos + 1 + |l|] == l
    ensures ReadLabels(data, pos, jumps) == Extend([l], ReadLabels(data, pos + 1 + |l|, jumps))
  {
  }

  lemma ExtendNothing(r: Result<NameRead>)
    ensures Extend([], r) == r
  {
    match r
    case Ok(x) => assert [] + x.labels == x.labels;
    case Err(_) =>
  }

  lemma ExtendExtend(l: Label, ls: seq<Label>, r: Result<NameRead>)
    ensures Extend([l], Extend(ls, r)) == Extend([l] + ls, r)
  {
    match r
    case Ok(x) => assert [l] + (ls + x.labels) == [l] + ls + x.labels;
    case Err(_) =>
  }

  /** Decoding an encoding whose labels are non-empty and fit gives the labels back. */
  lemma LabelsRoundTrip(prefix: seq<byte>, ls: seq<Label>, suffix: seq<byte>, jumps: nat)
    requires ValidLabels(ls)
    ensures ByteSized(ls)
    ensures ReadLabels(prefix + LabelsBytes(ls) + suffix, |prefix|, jumps)
         == Ok(NameRead(ls, |prefix| + |LabelsBytes(ls)|))
  {
    var data := prefix + LabelsBytes(ls) + suffix;
    ReadRun(prefix, ls, [0] + suffix, jumps);
    assert data == prefix + LabelRun(ls) + ([0] + suffix);
    assert data[|prefix| + |LabelRun(ls)|] == 0;
    assert ls + [] == ls;
  }

  /** Non-empty labels that fit, encoded at `pos`, decode back with the cursor just past them. */
  lemma LabelsDecodeAt(data: seq<byte>, pos: nat, ls: seq<Label>, jumps: nat)
    requires ValidLabels(ls)
    ensures ByteSized(ls)
    requires At(data, pos, LabelsBytes(ls))
    ensures ReadLabels(data, pos, jumps) == Ok(NameRead(ls, pos + |LabelsBytes(ls)|))
  {
    var run := LabelRun(ls);
    AtSplit(data, pos, run, [0]);
    ReadRunAt(data, pos, ls, jumps);
    AtByte(data, pos + |run|, [0], 0);
    assert ls + [] == ls;
  }

  /** A name that round-trips, encoded at `pos`, decodes back with the cursor just past it. */
  lemma NameDecodesAt(data: seq<byte>, pos: nat, name: seq<byte>)
    requires ValidName(name) && NameBytes(name).Ok? && At(data, pos, NameBytes(name).value)
    ensures DecodedName(data, pos) == Ok(NameAt(name, pos + |NameBytes(name).value|))
  {
    LabelsDecodeAt(data, pos, Split(name), JumpLimit(data));
    JoinSplit(name);
  }

  /** A name that round-trips always encodes. */
  lemma ValidNameEncodes(name: seq<byte>)
    requires ValidName(name)
    ensures NameBytes(name).Ok?
  {
    assert LabelsFit(Split(name));
  }

  /** A buffer that ends partway through a name's encoding at `pos`: decoding fails. */
  lemma NameCutAt(data: seq<byte>, pos: nat, name: seq<byte>)
    requires ValidName(name) && NameBytes(name).Ok? && CutShort(data, pos, NameBytes(name).value)
    ensures DecodedName(data, pos).Err?
  {
    TruncatedAt(data, pos, Split(name), JumpLimit(data));
  }

  /**
   * The name round trip: a name without empty or overlong labels, encoded and
   * placed anywhere in a buffer, decodes to itself, leaving the cursor just
   * past its encoding.
   */
  lemma NameRoundTrip(prefix: seq<byte>, name: seq<byte>, suffix: seq<byte>)
    requires ValidName(name)
    ensures NameBytes(name).Ok?
    ensures DecodedName(prefix + NameBytes(name).value + suffix, |prefix|)
         == Ok(NameAt(name, |prefix| + |NameBytes(name).value|))
  {
    ValidNameEncodes(name);
    AtConcat(prefix, NameBytes(name).value, suffix);
    NameDecodesAt(prefix + NameBytes(name).value + suffix, |prefix|, name);
  }

  /**
   * The empty name shows why empty labels are excluded: it encodes as [0, 0]
   * but decodes as soon as the first zero, leaving the cursor at 1, not 2.
   */
  lemma EmptyNameCursor()
    ensures NameBytes([]) == Ok([0, 0])
    ensures DecodedName([0, 0], 0) == Ok(NameAt([], 1))
  {
    assert Split([]) == [[]];
    assert LabelRun([[]]) == [0] + [] + LabelRun([]);
    assert LabelsBytes([[]]) == [0, 0];
    var data: seq<byte> := [0, 0];
    assert ReadLabels(data, 0, 2) == Ok(NameRead([], 1));
  }

  /**
   * Truncation is detected: an encoding of non-empty labels cut short
   * anywhere before its terminator fails to decode.
   */
  lemma TruncatedNameFails(prefix: seq<byte>, ls: seq<Label>, cut: nat, jumps: nat)
    requires ValidLabels(ls)
    ensures ByteSized(ls)
    requires cut < |LabelsBytes(ls)|
    ensures ReadLabels(prefix + LabelsBytes(ls)[..cut], |prefix|, jumps).Err?
  {
    var data := prefix + LabelsBytes(ls)[..cut];
    assert data[|prefix|..] == LabelsBytes(ls)[..cut];
    TruncatedAt(data, |prefix|, ls, jumps);
  }

  /** The same, for the bytes from `pos` to the end of `data`. */
  lemma {:induction false} TruncatedAt(data: seq<byte>, pos: nat, ls: seq<Label>, jumps: nat)
    requires ValidLabels(ls)
    ensures ByteSized(ls)
    requires pos <= |data| && |data| - pos < |LabelsBytes(ls)|
    requires data[pos..] == LabelsBytes(ls)[..|data| - pos]
    ensures ReadLabels(data, pos, jumps).Err?
    decreases |ls|
  {
    var enc := LabelsBytes(ls);
    if pos < |data| && ls != [] {
      var l := ls[0];
      var n := |l|;
      assert enc == [n] + l + LabelsBytes(ls[1..]);
      assert data[pos] == enc[0] == n;
      if pos + 1 + n <= |data| {
        var next := pos + 1 + n;
        assert data[pos + 1..next] == enc[1..1 + n] == l;
        assert data[next..] == LabelsBytes(ls[1..])[..|data| - next];
        ReadOneLabel(data, pos, l, jumps);
        TruncatedAt(data, next, ls[1..], jumps);
      }
    }
  }

  /** A name's encoding cut short anywhere before its end does not decode. */
  lemma NameCutFails(prefix: seq<byte>, name: seq<byte>, cut: nat)
    requires ValidName(name) && cut < |name| + 2
    ensures NameBytes(name).Ok?
    ensures DecodedName(prefix + NameBytes(name).value[..cut], |prefix|).Err?
  {
    ValidNameEncodes(name);
    var data := prefix + NameBytes(name).value[..cut];
    assert data[|prefix|..] == NameBytes(name).value[..cut];
    NameCutAt(data, |prefix|, name);
  }

  /**
   * Compression: labels followed by a pointer decode as those labels and then
   * the name at the pointer's target; the cursor ends two bytes past the
   * pointer, whatever further pointers the target holds.
   */
  lemma CompressedName(prefix: seq<byte>, ls: seq<Label>, hi: byte, lo: byte, suffix: seq<byte>, jumps: nat)
    requires ValidLabels(ls) && IsPointer(hi) && jumps > 0
    ensures ByteSized(ls)
    ensures var data := prefix + LabelRun(ls) + [hi, lo] + suffix;
      var at := |prefix| + |LabelRun(ls)|;
      ReadLabels(data, |prefix|, jumps)
        == match ReadLabels(data, PointerTarget(hi, lo), jumps - 1)
           case Ok(r) => Ok(NameRead(ls + r.labels, at + 2))
           case Err(e) => Err(e)
  {
    var data := prefix + LabelRun(ls) + [hi, lo] + suffix;
    ReadRun(prefix, ls, [hi, lo] + suffix, jumps);
    assert data == prefix + LabelRun(ls) + ([hi, lo] + suffix);
    var at := |prefix| + |LabelRun(ls)|;
    assert data[at] == hi && data[at + 1] == lo;
  }

  /**
   * "www" followed by a pointer to "google.com" stored at offset 12 decodes
   * to "www.google.com", with the cursor two bytes past the pointer.
   */
  lemma CompressedExample(header: seq<byte>)
    requires |header| == 12
    ensures var data := header + LabelsBytes([Google, Com]) + [3] + Www + [0xC0, 12];
      DecodedName(data, 24) == Ok(NameAt(Www + [Dot] + Google + [Dot] + Com, 30))
  {
    CompressedExampleLabels(header);
    ExampleJoin();
  }

  /** The labels behind the compressed name of `CompressedExample`. */
  lemma CompressedExampleLabels(header: seq<byte>)
    requires |header| == 12
    ensures var data := header + LabelsBytes([Google, Com]) + [3] + Www + [0xC0, 12];
      ReadLabels(data, 24, JumpLimit(data)) == Ok(NameRead([Www, Google, Com], 30))
  {
    var data := header + LabelsBytes([Google, Com]) + [3] + Www + [0xC0, 12];
    var jumps := JumpLimit(data);
    TwoLabelRun(Google, Com);
    var prefix := header + LabelsBytes([Google, Com]);
    assert |prefix| == 24;
    assert LabelRun([Www]) == [3] + Www + LabelRun([]);
    assert data == prefix + LabelRun([Www]) + [0xC0, 12] + [];
    assert ValidLabels([Www]);
    CompressedName(prefix, [Www], 0xC0, 12, [], jumps);
    assert PointerTarget(0xC0, 12) == 12;
    assert ValidLabels([Google, Com]);
    LabelsRoundTrip(header, [Google, Com], [3] + Www + [0xC0, 12], jumps - 1);
    assert data == header + LabelsBytes([Google, Com]) + ([3] + Www + [0xC0, 12]);
    assert ReadLabels(data, 12, jumps - 1) == Ok(NameRead([Google, Com], 24));
    assert [Www] + [Google, Com] == [Www, Google, Com];
  }

  /** "www", "google" and "com" joined with dots. */
  lemma ExampleJoin()
    ensures Join([Www, Google, Com]) == Www + [Dot] + Google + [Dot] + Com
  {
    assert Join([Www, Google, Com]) == Www + [Dot] + Join([Google, Com]) by {
      assert [Www, Google, Com][1..] == [Google, Com];
    }
    assert Join([Google, Com]) == Google + [Dot] + Com by {
      assert [Google, Com][1..] == [Com];
    }
  }

  /** The bytes of "www". */
  const Www: seq<byte> := [0x77, 0x77, 0x77]

  /**
   * The shape of every successful read: the labels are non-empty and shorter
   * than 0xC0 bytes, and the bytes from `pos` are a run of plain labels (a
   * prefix of the result) followed either by the terminator, when the run
   * holds every label, with the cursor just past it, or by a pointer, with
   * the cursor two bytes past that pointer.
   */
  lemma {:induction false} ReadShape(data: seq<byte>, pos: nat, jumps: nat)
    requires ReadLabels(data, pos, jumps).Ok?
    ensures var r := ReadLabels(data, pos, jumps).value;
      (forall i :: 0 <= i < |r.labels| ==> 0 < |r.labels[i]| < 0xC0)
      && exists k :: 0 <= k <= |r.labels| && ShapedAs(data, pos, r, k)
    decreases jumps, if pos <= |data| then |data| - pos else 0
  {
    var r := ReadLabels(data, pos, jumps).value;
    if IsPointer(data[pos]) {
      ReadShape(data, PointerTarget(data[pos], data[pos + 1]), jumps - 1);
      assert ShapedAs(data, pos, r, 0);
    } else if data[pos] == 0 {
      assert ShapedAs(data, pos, r, 0);
    } else {
      var n := data[pos];
      var next := pos + 1 + n;
      ReadShape(data, next, jumps);
      var r' := ReadLabels(data, next, jumps).value;
      var k' :| 0 <= k' <= |r'.labels| && ShapedAs(data, next, r', k');
      var l := data[pos + 1..next];
      assert r == NameRead([l] + r'.labels, r'.next);
      ShapeExtend(data, pos, r', k');
    }
  }

  /** A plain label in front of a shaped read gives a shaped read one label longer. */
  lemma ShapeExtend(data: seq<byte>, pos: nat, r: NameRead, k: nat)
    requires pos < |data| && 0 < data[pos] < 0xC0
    requires k <= |r.labels| && ShapedAs(data, pos + 1 + data[pos], r, k)
    ensures var l := data[pos + 1..pos + 1 + data[pos]];
      ShapedAs(data, pos, NameRead([l] + r.labels, r.next), k + 1)
  {
    var n := data[pos];
    var next := pos + 1 + n;
    var l := data[pos + 1..next];
    var r2 := NameRead([l] + r.labels, r.next);
    assert r2.labels[..k + 1] == [l] + r.labels[..k];
    assert LabelRun(r2.labels[..k + 1]) == [n] + l + LabelRun(r.labels[..k]);
    var q := next + |LabelRun(r.labels[..k])|;
    assert data[pos..q] == data[pos..next] + data[next..q];
    assert data[pos..next] == [n] + l;
  }

  /**
   * The first `k` labels of `r` lie as a plain run at `pos`, followed by the
   * terminator (when `k` covers every label) or by the pointer that fixed the cursor.
   */
  predicate ShapedAs(data: seq<byte>, pos: nat, r: NameRead, k: nat)
    requires k <= |r.labels|
  {
    ByteSized(r.labels[..k]) &&
    var q := pos + |LabelRun(r.labels[..k])|;
    q < |data| && data[pos..q] == LabelRun(r.labels[..k]) &&
    ((k == |r.labels| && data[q] == 0 && r.next == q + 1) ||
     (IsPointer(data[q]) && r.next == q + 2))
  }

  /** A pointer to itself is rejected, whatever the jump budget. */
  lemma {:induction false} SelfPointerRejected(data: seq<byte>, pos: nat, jumps: nat)
    requires pos + 1 < |data| && IsPointer(data[pos])
    requires PointerTarget(data[pos], data[pos + 1]) == pos
    ensures ReadLabels(data, pos, jumps) == Err(TooManyJumps)
    decreases jumps
  {
    if jumps > 0 {
      SelfPointerRejected(data, pos, jumps - 1);
    }
  }
}
