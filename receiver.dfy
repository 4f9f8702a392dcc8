/** A receiver for the bit strings the encoder produces: it waits out the
    idle marks, then reads 8-bit frames, follows LTRS and FIGS, and prints
    each other code in the shift it is in. It is the reference against
    which the encoder's output is shown to be decodable. */
module Receiver {
  import opened BaudotCode
  import opened Encoder

  datatype ReceiverState = ReceiverState(mode: Mode, text: string)

  /** What a code value prints in shift m. The carriage-return and
      line-feed codes print in either shift, as in ITA2: the encoder sends
      its automatic line break without a shift frame. */
  function CharFor(m: Mode, v: nat): Option<char> {
    if m == Letters || v == CR_VALUE || v == LF_VALUE then LetterFor(v) else FigureFor(v)
  }

  /** The effect of one frame; None for a framing error or an unknown code. */
  function ReceiveFrame(r: ReceiverState, f: string): Option<ReceiverState>
    requires |f| == FRAME_BITS
  {
    if !IsFrame(f) then None
    else if DataValue(f) == LTRS_VALUE then Some(ReceiverState(Letters, r.text))
    else if DataValue(f) == FIGS_VALUE then Some(ReceiverState(Figures, r.text))
    else match CharFor(r.mode, DataValue(f))
      case None => None
      case Some(ch) => Some(ReceiverState(r.mode, r.text + [ch]))
  }

  /** The state after a run of frames, read from the first; None when the
      bits are not a whole number of frames. */
  function ReceiveFrames(r: ReceiverState, bits: string): Option<ReceiverState>
    decreases |bits|
  {
    if bits == [] then Some(r)
    else if |bits| < FRAME_BITS then None
    else match ReceiveFrames(r, bits[..|bits| - FRAME_BITS])
      case None => None
      case Some(r') => ReceiveFrame(r', bits[|bits| - FRAME_BITS..])
  }

  /** The text a receiver that powered on in shift initial prints for a
      whole transmission, or None if it cannot read it. */
  function Receive(initial: Mode, bits: string): Option<string> {
    if |bits| < IDLE_BITS || bits[..IDLE_BITS] != Marks(IDLE_BITS) then None
    else match ReceiveFrames(ReceiverState(initial, ""), bits[IDLE_BITS..])
      case None => None
      case Some(r) => Some(r.text)
  }

  /** Reading one more frame after a run of frames. */
  lemma {:induction false} ReceiveOneMore(r: ReceiverState, bits: string, f: string)
    requires |f| == FRAME_BITS
    ensures ReceiveFrames(r, bits + f) ==
      match ReceiveFrames(r, bits)
      case None => None
      case Some(r') => ReceiveFrame(r', f)
  {
    var all := bits + f;
    assert all[..|all| - FRAME_BITS] == bits;
    assert all[|all| - FRAME_BITS..] == f;
  }

  /** A shift frame only changes the receiver's shift. */
  lemma ShiftReceived(r: ReceiverState, m: Mode)
    ensures |ShiftFrame(m)| == FRAME_BITS
    ensures ReceiveFrame(r, ShiftFrame(m)) == Some(ReceiverState(m, r.text))
  {
    ReservedCodes();
  }

  /** A character frame sent in its own table's shift prints the character
      (the backquote as an apostrophe). */
  lemma CharacterReceived(r: ReceiverState, c: char)
    requires FindMode(c) == Some(r.mode)
    ensures |Lookup(r.mode, c).value| == FRAME_BITS
    ensures ReceiveFrame(r, Lookup(r.mode, c).value) == Some(ReceiverState(r.mode, r.text + [Canonical(c)]))
  {
    if r.mode == Letters {
      LetterFramesDecode();
    } else {
      FigureFramesDecode();
    }
  }

  /** The CR and LF frames of the letters table print CR and LF in either
      shift. */
  lemma LineCodesReceived(r: ReceiverState)
    ensures ReceiveFrame(r, Wrap("00000")) == Some(ReceiverState(r.mode, r.text + ['\r']))
    ensures ReceiveFrame(r, Wrap("00010")) == Some(ReceiverState(r.mode, r.text + ['\n']))
  {
    WrapData("00000");
    WrapData("00010");
    ReservedCodes();
  }

  /** The two frames of an automatic line break print CR and LF in either
      shift, leaving the shift as it was. */
  lemma LineBreakReceived(r: ReceiverState, bits: string)
    ensures ReceiveFrames(r, bits + LineBreakFrames()) ==
      match ReceiveFrames(r, bits)
      case None => None
      case Some(r') => Some(ReceiverState(r'.mode, r'.text + CRLF))
  {
    LineBreakFramesValue();
    var cr := Wrap("00000");
    var lf := Wrap("00010");
    assert bits + LineBreakFrames() == (bits + cr) + lf;
    ReceiveOneMore(r, bits, cr);
    ReceiveOneMore(r, bits + cr, lf);
    match ReceiveFrames(r, bits)
    case None =>
    case Some(r') =>
      LineCodesReceived(r');
      LineCodesReceived(ReceiverState(r'.mode, r'.text + ['\r']));
      assert r'.text + ['\r'] + ['\n'] == r'.text + CRLF;
  }
}
