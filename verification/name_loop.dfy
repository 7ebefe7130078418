/**
 * The name-decoding loop exactly as the source writes it: no bound on the
 * number of pointers followed, and an unchecked read of the byte after a
 * pointer. One iteration is a step on the loop's variables; the bounded
 * decoder of NameCodec is related to it below.
 */
module NameLoop {
  import opened Wire
  import opened NameCodec

  /** The loop's variables: the cursor, the `jumped` flag, `jump_offset` and the labels read. */
  datatype LoopState = LoopState(offset: nat, jumped: bool, jumpOffset: nat, parts: seq<Label>)

  /** What one iteration, or several, leave: still looping, left the loop, returned an error, or panicked. */
  datatype Step = Continue(state: LoopState) | Break(state: LoopState) | Fail(error: Error) | Panic

  /** The state on entry to the loop. */
  function Start(offset: nat): LoopState
  {
    LoopState(offset, false, offset, [])
  }

  /** The cursor the source leaves after the loop: `jump_offset` once a pointer was followed. */
  function Cursor(s: LoopState): nat
  {
    if s.jumped then s.jumpOffset else s.offset
  }

  /**
   * `t` is a later state of a loop that was in `s`: the labels read so far
   * are kept, and once a pointer was followed the cursor to restore is fixed.
   */
  predicate Later(s: LoopState, t: LoopState)
  {
    s.parts <= t.parts && (s.jumped ==> t.jumped && t.jumpOffset == s.jumpOffset)
  }

  /**
   * One iteration of the loop body. It only ever adds a label or follows a
   * pointer; its own errors are a cursor past the end and a label that runs
   * past the end. Reading the byte after a pointer at the end of the buffer
   * panics.
   */
  function SourceStep(data: seq<byte>, s: LoopState): (o: Step)
    ensures (o.Continue? || o.Break?) ==> Later(s, o.state)
    ensures o.Fail? ==> o.error == NameTruncated || o.error == LabelTruncated
  {
    if s.offset >= |data| then Fail(NameTruncated)
    else
      var length := data[s.offset];
      if IsPointer(length) then
        if s.offset + 1 >= |data| then Panic
        else Continue(LoopState(
          PointerTarget(length, data[s.offset + 1]),
          true,
          if s.jumped then s.jumpOffset else s.offset + 2,
          s.parts))
      else if length == 0 then Break(s.(offset := s.offset + 1))
      else if s.offset + 1 + length > |data| then Fail(LabelTruncated)
      else Continue(s.(offset := s.offset + 1 + length,
                       parts := s.parts + [data[s.offset + 1..s.offset + 1 + length]]))
  }

  /** `n` iterations of the loop, stopping early when it is left. */
  function SourceRun(data: seq<byte>, s: LoopState, n: nat): (o: Step)
    ensures (o.Continue? || o.Break?) ==> Later(s, o.state)
    ensures o.Fail? ==> o.error == NameTruncated || o.error == LabelTruncated
    decreases n
  {
    if n == 0 then Continue(s)
    else match SourceStep(data, s)
      case Continue(s') => SourceRun(data, s', n - 1)
      case other => other
  }

  /** The loop ended as the bounded read says: the same labels and cursor, the same error, or a panic where the read reports a pointer at the end. */
  predicate Agrees(o: Step, r: Result<NameRead>)
  {
    match r
    case Ok(x) => o.Break? && o.state.parts == x.labels && Cursor(o.state) == x.next
    case Err(e) => if e == PointerTruncated then o.Panic? else o == Fail(e)
  }

  /**
   * Unless it runs out of jumps, the bounded read ends exactly where the
   * source's loop ends after some number of iterations: with the same labels
   * and cursor, the same error, or (for a pointer in the last byte) where the
   * source panics.
   */
  lemma {:induction false} BoundedReadAgrees(data: seq<byte>, s: LoopState, jumps: nat)
    requires ReadLabels(data, s.offset, jumps) != Err(TooManyJumps)
    ensures exists n :: Agrees(SourceRun(data, s, n),
                               Resume(s.parts, ReadLabels(data, s.offset, jumps), s.jumped, s.jumpOffset))
    decreases jumps, if s.offset <= |data| then |data| - s.offset else 0
  {
    var goal := Resume(s.parts, ReadLabels(data, s.offset, jumps), s.jumped, s.jumpOffset);
    match SourceStep(data, s)
    case Continue(s') =>
      var left := if IsPointer(data[s.offset]) then jumps - 1 else jumps;
      StepGoal(data, s, s', jumps);
      BoundedReadAgrees(data, s', left);
      var n: nat :| Agrees(SourceRun(data, s', n), goal);
      assert SourceRun(data, s, n + 1) == SourceRun(data, s', n);
    case _ =>
      StopAgrees(data, s, jumps);
  }

  /**
   * An iteration that goes on leaves the same read still to come: the rest
   * of the labels, or the labels at the pointer's target with one jump fewer.
   */
  lemma StepGoal(data: seq<byte>, s: LoopState, s': LoopState, jumps: nat)
    requires SourceStep(data, s) == Continue(s')
    requires ReadLabels(data, s.offset, jumps) != Err(TooManyJumps)
    ensures var left := if IsPointer(data[s.offset]) then jumps - 1 else jumps;
      left >= 0
      && ReadLabels(data, s'.offset, left) != Err(TooManyJumps)
      && Resume(s.parts, ReadLabels(data, s.offset, jumps), s.jumped, s.jumpOffset)
         == Resume(s'.parts, ReadLabels(data, s'.offset, left), s'.jumped, s'.jumpOffset)
  {
    if !IsPointer(data[s.offset]) {
      var l := data[s.offset + 1..s.offset + 1 + data[s.offset]];
      ResumeLabel(s.parts, l, ReadLabels(data, s'.offset, jumps), s.jumped, s.jumpOffset);
    }
  }

  /** An iteration that leaves the loop, fails or panics ends it as the bounded read does. */
  lemma StopAgrees(data: seq<byte>, s: LoopState, jumps: nat)
    requires !SourceStep(data, s).Continue?
    ensures Agrees(SourceRun(data, s, 1), Resume(s.parts, ReadLabels(data, s.offset, jumps), s.jumped, s.jumpOffset))
  {
    if SourceStep(data, s).Break? {
      assert s.parts + [] == s.parts;
    }
  }

  /**
   * The decoded name and cursor are those the source computes, whenever the
   * bounded decoder does not stop for too many jumps.
   */
  lemma DecodeAgreesWithSource(data: seq<byte>, offset: nat)
    requires DecodedName(data, offset) != Err(TooManyJumps)
    ensures exists n :: var o := SourceRun(data, Start(offset), n);
      match DecodedName(data, offset)
      case Ok(x) => o.Break? && Join(o.state.parts) == x.name && Cursor(o.state) == x.next
      case Err(e) => if e == PointerTruncated then o.Panic? else o == Fail(e)
  {
    var r := ReadLabels(data, offset, JumpLimit(data));
    ResumeStart(r, offset);
    BoundedReadAgrees(data, Start(offset), JumpLimit(data));
    var n: nat :| Agrees(SourceRun(data, Start(offset), n), r);
    var o := SourceRun(data, Start(offset), n);
    assert match DecodedName(data, offset)
      case Ok(x) => o.Break? && Join(o.state.parts) == x.name && Cursor(o.state) == x.next
      case Err(e) => if e == PointerTruncated then o.Panic? else o == Fail(e);
  }

  /** A two-byte buffer holding a pointer to itself. */
  const SelfLoop: seq<byte> := [0xC0, 0x00]

  /** As written, decoding the self-pointer never leaves the loop, however many iterations run. */
  lemma SelfPointerLoopsForever(n: nat)
    ensures SourceRun(SelfLoop, Start(0), n).Continue?
  {
    if n > 0 {
      assert SourceStep(SelfLoop, Start(0)) == Continue(Looping);
      LoopingStaysPut(n - 1);
    }
  }

  /** The state the self-pointer reaches after its first jump. */
  const Looping: LoopState := LoopState(0, true, 2, [])

  lemma {:induction false} LoopingStaysPut(n: nat)
    ensures SourceRun(SelfLoop, Looping, n) == Continue(Looping)
  {
    assert SourceStep(SelfLoop, Looping) == Continue(Looping);
    if n > 0 {
      LoopingStaysPut(n - 1);
    }
  }

  /** The bounded decoder rejects the same buffer. */
  lemma SelfPointerDecodeFails()
    ensures DecodedName(SelfLoop, 0) == Err(TooManyJumps)
  {
    SelfPointerRejected(SelfLoop, 0, JumpLimit(SelfLoop));
  }

  /** A pointer in the last byte: the source indexes past the end and panics. */
  lemma PointerAtEndPanics()
    ensures SourceRun([0xC0], Start(0), 1) == Panic
  {
  }

  /** The bounded decoder returns an error for it instead. */
  lemma PointerAtEndDecodeFails()
    ensures DecodedName([0xC0], 0) == Err(PointerTruncated)
  {
  }
}
