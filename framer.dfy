/**
 * The header framer at the start of `HttpConnection::handle_connection`: it
 * reads the request one byte at a time into a fixed 1024-byte buffer and
 * stops once a five-state machine has seen the blank line that ends the
 * header block (section 4.1 of RFC 2616), once the buffer is full, or at the
 * first failed read.
 *
 * The connection is modelled by the sequence of bytes the peer sends; a read
 * fails exactly when that sequence is exhausted.
 */
module Framer {
  import opened Text

  /** Size of the header buffer, and so the most bytes the framer reads. */
  const MAX_HEADER: nat := 1024

  const CR: Byte := 13
  const LF: Byte := 10

  /** The blank line that ends a header block: "\r\n\r\n". */
  const BLANK_LINE: seq<Byte> := [CR, LF, CR, LF]

  /** The states STATE_0 to STATE_4 of the source. */
  datatype State = Normal | SawCR | SawCRLF | SawCRLFCR | Done

  /** How many bytes of "\r\n\r\n" a state stands for having just seen. */
  function Matched(s: State): (k: nat)
  {
    match s
    case Normal => 0
    case SawCR => 1
    case SawCRLF => 2
    case SawCRLFCR => 3
    case Done => 4
  }

  /**
   * One transition. A '\r' in SawCR or SawCRLFCR goes back to Normal rather
   * than to SawCR, so the machine is not an exact "\r\n\r\n" detector.
   */
  function Step(s: State, b: Byte): (r: State)
    ensures Matched(r) == 0 || Matched(r) == Matched(s) + 1
    ensures Matched(r) > 0 ==> b == BLANK_LINE[Matched(r) - 1]
  {
    if b == CR then
      if s == Normal then SawCR else if s == SawCRLF then SawCRLFCR else Normal
    else if b == LF then
      if s == SawCR then SawCRLF else if s == SawCRLFCR then Done else Normal
    else Normal
  }

  /** The state after feeding `bs` to the machine from Normal. */
  function StateAfter(bs: seq<Byte>): (s: State)
    ensures Matched(s) <= |bs|
    decreases |bs|
  {
    if bs == [] then Normal else Step(StateAfter(bs[..|bs| - 1]), bs[|bs| - 1])
  }

  /**
   * The machine's invariant: in a state standing for k matched bytes, the
   * last k bytes consumed are the first k bytes of "\r\n\r\n".
   */
  lemma {:induction false} StateAfterSound(bs: seq<Byte>)
    ensures Matched(StateAfter(bs)) <= |bs|
    ensures forall i :: 0 <= i < Matched(StateAfter(bs)) ==> bs[|bs| - Matched(StateAfter(bs)) + i] == BLANK_LINE[i]
    decreases |bs|
  {
    if bs != [] {
      var n := |bs|;
      var p := bs[..n - 1];
      StateAfterSound(p);
      var k := Matched(StateAfter(bs));
      forall i | 0 <= i < k
        ensures bs[n - k + i] == BLANK_LINE[i]
      {
        if i < k - 1 {
          assert bs[n - k + i] == p[n - k + i];
        }
      }
    }
  }

  /** `bs` ends with the blank line "\r\n\r\n". */
  predicate EndsWithBlankLine(bs: seq<Byte>)
  {
    |bs| >= 4 && bs[|bs| - 4..] == BLANK_LINE
  }

  /** So the machine is Done only right after "\r\n\r\n". */
  lemma DoneAfterBlankLine(bs: seq<Byte>)
    requires StateAfter(bs) == Done
    ensures EndsWithBlankLine(bs)
  {
    StateAfterSound(bs);
    var n := |bs|;
    assert bs[n - 4..] == BLANK_LINE by {
      forall i | 0 <= i < 4 ensures bs[n - 4..][i] == BLANK_LINE[i] {
        assert bs[n - 4 + i] == BLANK_LINE[i];
      }
    }
  }

  /** Feeding one more byte of the input is one step of the machine. */
  lemma StateAfterNext(input: seq<Byte>, k: nat)
    requires k < |input|
    ensures StateAfter(input[..k + 1]) == Step(StateAfter(input[..k]), input[k])
  {
    assert input[..k + 1][..k] == input[..k];
  }

  /** Done is reached only from Normal, through SawCR, SawCRLF and SawCRLFCR on the last four bytes. */
  lemma DoneFromNormal(bs: seq<Byte>)
    requires StateAfter(bs) == Done
    ensures |bs| >= 4 && StateAfter(bs[..|bs| - 4]) == Normal
  {
    StateAfterSound(bs);
    var n := |bs|;
    assert bs[..n] == bs;
    StepBack(bs, n);
    StepBack(bs, n - 1);
    StepBack(bs, n - 2);
    StepBack(bs, n - 3);
  }

  /** A state that stands for some matched bytes was reached from the state standing for one fewer. */
  lemma StepBack(bs: seq<Byte>, j: nat)
    requires 0 < j <= |bs| && Matched(StateAfter(bs[..j])) > 0
    ensures Matched(StateAfter(bs[..j - 1])) == Matched(StateAfter(bs[..j])) - 1
  {
    StateAfterNext(bs, j - 1);
  }

  /** From Normal, "\r\n\r\n" drives the machine to Done. */
  lemma NormalToDone(bs: seq<Byte>)
    requires EndsWithBlankLine(bs) && StateAfter(bs[..|bs| - 4]) == Normal
    ensures StateAfter(bs) == Done
  {
    var n := |bs|;
    assert bs[n - 4] == CR && bs[n - 3] == LF && bs[n - 2] == CR && bs[n - 1] == LF by {
      assert bs[n - 4..] == BLANK_LINE;
    }
    StateAfterNext(bs, n - 4);
    assert StateAfter(bs[..n - 3]) == SawCR;
    StateAfterNext(bs, n - 3);
    assert StateAfter(bs[..n - 2]) == SawCRLF;
    StateAfterNext(bs, n - 2);
    assert StateAfter(bs[..n - 1]) == SawCRLFCR;
    StateAfterNext(bs, n - 1);
    assert bs[..n] == bs;
  }

  /**
   * Exactly when the machine is Done: the input ends with "\r\n\r\n" and the
   * machine was in Normal just before it.
   */
  lemma DoneExactly(bs: seq<Byte>)
    ensures StateAfter(bs) == Done <==>
            EndsWithBlankLine(bs) && StateAfter(bs[..|bs| - 4]) == Normal
  {
    if StateAfter(bs) == Done {
      DoneAfterBlankLine(bs);
      DoneFromNormal(bs);
    } else if EndsWithBlankLine(bs) && StateAfter(bs[..|bs| - 4]) == Normal {
      NormalToDone(bs);
    }
  }

  /**
   * A header block whose last line ends in an ordinary byte (or an empty
   * input) followed by "\r\n\r\n" drives the machine to Done.
   */
  lemma CompleteAfterOrdinaryByte(p: seq<Byte>)
    requires p == [] || (p[|p| - 1] != CR && p[|p| - 1] != LF)
    ensures StateAfter(p + BLANK_LINE) == Done
  {
    var bs := p + BLANK_LINE;
    assert bs[..|bs| - 4] == p;
    assert bs[|bs| - 4..] == BLANK_LINE;
    if p != [] {
      assert StateAfter(p) == Step(StateAfter(p[..|p| - 1]), p[|p| - 1]);
    }
    DoneExactly(bs);
  }

  /**
   * The framer is incomplete: "\r\r\n\r\n" contains "\r\n\r\n" but does not
   * drive the machine to Done, because the second '\r' resets SawCR to Normal.
   */
  lemma MissesBlankLineAfterCR()
    ensures StateAfter([CR, CR, LF, CR, LF]) == SawCRLF
    ensures [CR, CR, LF, CR, LF][1..] == BLANK_LINE
  {
    var bs: seq<Byte> := [CR, CR, LF, CR, LF];
    assert bs[..1][..0] == [] && bs[..2][..1] == bs[..1] && bs[..3][..2] == bs[..2];
    assert bs[..4][..3] == bs[..3] && bs[..4] == bs[..|bs| - 1];
    assert StateAfter(bs[..1]) == SawCR;
    assert StateAfter(bs[..2]) == Normal;
    assert StateAfter(bs[..3]) == Normal;
    assert StateAfter(bs[..4]) == SawCR;
  }

  function Min(a: nat, b: nat): nat
  {
    if a <= b then a else b
  }

  /**
   * How many bytes the framer consumes when `k` bytes are already in the
   * buffer and the machine has not been Done.
   */
  function FrameFrom(input: seq<Byte>, k: nat): (n: nat)
    requires k <= MAX_HEADER && k <= |input|
    ensures k <= n <= Min(MAX_HEADER, |input|)
    ensures StateAfter(input[..n]) == Done || n == Min(MAX_HEADER, |input|)
    decreases MAX_HEADER - k
  {
    if k >= MAX_HEADER || k >= |input| then k
    else if StateAfter(input[..k + 1]) == Done then k + 1
    else FrameFrom(input, k + 1)
  }

  /** The framer does not pass a position at which the machine is Done. */
  lemma {:induction false} FrameFromStopsAtFirstDone(input: seq<Byte>, k: nat)
    requires k <= MAX_HEADER && k <= |input|
    ensures forall j :: k < j < FrameFrom(input, k) ==> StateAfter(input[..j]) != Done
    decreases MAX_HEADER - k
  {
    if k < MAX_HEADER && k < |input| && StateAfter(input[..k + 1]) != Done {
      FrameFromStopsAtFirstDone(input, k + 1);
    }
  }

  /**
   * The number of bytes the framer consumes from a connection: up to and
   * including the first byte that makes the machine Done, and otherwise all
   * bytes up to the buffer size or the first failed read.
   */
  function FrameLength(input: seq<Byte>): (n: nat)
    ensures n <= MAX_HEADER && n <= |input|
  {
    FrameFrom(input, 0)
  }

  /** The framer reads at most 1024 bytes and stops only for one of its three reasons, at the first Done. */
  lemma FrameLengthBounds(input: seq<Byte>)
    ensures FrameLength(input) <= MAX_HEADER && FrameLength(input) <= |input|
    ensures var n := FrameLength(input);
      StateAfter(input[..n]) == Done || n == MAX_HEADER || n == |input|
    ensures forall j :: 0 < j < FrameLength(input) ==> StateAfter(input[..j]) != Done
  {
    FrameFromStopsAtFirstDone(input, 0);
  }

  /** From any position before the first Done, the framer runs on to it. */
  lemma {:induction false} FrameFromReachesDone(input: seq<Byte>, k: nat, m: nat)
    requires k < m <= MAX_HEADER && m <= |input|
    requires StateAfter(input[..m]) == Done
    requires forall j :: k < j < m ==> StateAfter(input[..j]) != Done
    ensures FrameFrom(input, k) == m
    decreases m - k
  {
    if k + 1 < m {
      FrameFromReachesDone(input, k + 1, m);
    }
  }

  /** The first position at which the machine is Done within the buffer is exactly where the framer stops. */
  lemma FrameLengthAtFirstDone(input: seq<Byte>, m: nat)
    requires 0 < m <= MAX_HEADER && m <= |input|
    requires StateAfter(input[..m]) == Done
    requires forall j :: 0 < j < m ==> StateAfter(input[..j]) != Done
    ensures FrameLength(input) == m
  {
    FrameFromReachesDone(input, 0, m);
  }

  /**
   * A header block that ends with its first "\r\n\r\n", after a line ending
   * in an ordinary byte and within the buffer, is framed exactly, whatever
   * follows it on the connection.
   */
  lemma FrameHeaderBlock(p: seq<Byte>, rest: seq<Byte>)
    requires |p| + 4 <= MAX_HEADER
    requires p == [] || (p[|p| - 1] != CR && p[|p| - 1] != LF)
    requires forall j :: 0 < j < |p| + 4 ==> !EndsWithBlankLine((p + BLANK_LINE)[..j])
    ensures FrameLength(p + BLANK_LINE + rest) == |p| + 4
  {
    var h := p + BLANK_LINE;
    var input := h + rest;
    assert input[..|h|] == h;
    CompleteAfterOrdinaryByte(p);
    forall j | 0 < j < |h|
      ensures StateAfter(input[..j]) != Done
    {
      assert input[..j] == h[..j];
      if StateAfter(h[..j]) == Done {
        DoneAfterBlankLine(h[..j]);
      }
    }
    FrameLengthAtFirstDone(input, |h|);
  }

  /** One more byte in the buffer: the framer stops after it if it completes the blank line, and goes on otherwise. */
  lemma FrameFromNext(input: seq<Byte>, k: nat)
    requires k < MAX_HEADER && k < |input|
    ensures FrameFrom(input, k) == if StateAfter(input[..k + 1]) == Done then k + 1 else FrameFrom(input, k + 1)
  {
  }

  /** The 1024-byte buffer after the first `n` bytes of the input are stored in it: those bytes, then the initial zeros. */
  function Buffer(input: seq<Byte>, n: nat): (buffer: seq<Byte>)
    requires n <= MAX_HEADER && n <= |input|
    ensures |buffer| == MAX_HEADER
    ensures buffer[..n] == input[..n]
    ensures forall i :: n <= i < MAX_HEADER ==> buffer[i] == 0
  {
    input[..n] + seq(MAX_HEADER - n, _ => 0)
  }

  /** Storing the next byte at its index extends the buffer by one byte. */
  lemma BufferNext(input: seq<Byte>, n: nat)
    requires n < MAX_HEADER && n < |input|
    ensures Buffer(input, n + 1) == Buffer(input, n)[n := input[n]]
  {
    var b := Buffer(input, n)[n := input[n]];
    forall i | 0 <= i < MAX_HEADER
      ensures Buffer(input, n + 1)[i] == b[i]
    {
      if i < n {
        assert Buffer(input, n + 1)[..n + 1][i] == input[..n + 1][i];
        assert Buffer(input, n)[..n][i] == input[..n][i];
      } else if i == n {
        assert Buffer(input, n + 1)[..n + 1][i] == input[..n + 1][i];
      }
    }
  }

  /**
   * The framing loop. The byte read at step i is stored at index i of the
   * buffer, the rest keeps its zeros, and the loop consumes exactly
   * `FrameLength(input)` bytes from the connection.
   */
  method ReadHeader(input: seq<Byte>) returns (data: seq<Byte>, consumed: nat)
    ensures consumed == FrameLength(input)
    ensures consumed <= |input| && data == Buffer(input, consumed)
  {
    var buffer := new Byte[MAX_HEADER](_ => 0);
    var idx := 0;
    var state := Normal;
    consumed := 0;
    assert buffer[..] == Buffer(input, 0);
    while true
      invariant idx <= MAX_HEADER && idx <= |input| && consumed == idx
      invariant buffer[..] == Buffer(input, idx)
      invariant state == StateAfter(input[..idx])
      invariant FrameFrom(input, idx) == FrameLength(input)
      decreases MAX_HEADER - idx
    {
      if idx >= MAX_HEADER {
        break;
      }
      if consumed >= |input| {
        // read_exact fails: the peer has sent nothing more
        break;
      }
      var byte := input[consumed];
      consumed := consumed + 1;
      BufferNext(input, idx);
      buffer[idx] := byte;
      StateAfterNext(input, idx);
      FrameFromNext(input, idx);
      state := Step(state, byte);
      if state == Done {
        break;
      }
      idx := idx + 1;
    }
    data := buffer[..];
  }
}
