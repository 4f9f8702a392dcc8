/** What text_to_baudot promises, stated against definitions that do not
    mention the encoder: the characters it keeps, the shift changes those
    characters need, where lines of 70 characters end, and what a receiver
    prints. */
module EncoderProperties {
  import opened BaudotCode
  import opened Encoder
  import opened Receiver

  // ---------------------------------------------------------------------
  // Reference definitions over the text

  /** The characters of s found in a table, in order. */
  function Kept(s: string): string {
    if s == [] then [] else Kept(s[..|s| - 1]) + (if FindMode(s[|s| - 1]).Some? then [s[|s| - 1]] else [])
  }

  predicate AllMapped(k: string) {
    forall i :: 0 <= i < |k| ==> FindMode(k[i]).Some?
  }

  /** The shift a string of table characters leaves the line in. */
  function ShiftAfter(k: string): Mode
    requires AllMapped(k)
  {
    if k == [] then Letters else FindMode(k[|k| - 1]).value
  }

  /** How often consecutive characters of k, starting from letters shift,
      need different tables. */
  function ModeChanges(k: string): nat
    requires AllMapped(k)
  {
    if k == [] then 0
    else
      var p := k[..|k| - 1];
      ModeChanges(p) + (if FindMode(k[|k| - 1]).value != ShiftAfter(p) then 1 else 0)
  }

  /** The number of characters of k after its last CR or LF. */
  function RunLength(k: string): nat {
    if k == [] || IsLineEnd(k[|k| - 1]) then 0 else RunLength(k[..|k| - 1]) + 1
  }

  /** The position in the current printed line after k, counting a full
      line as position 0 of the next. */
  function Column(k: string): nat {
    if k == [] || IsLineEnd(k[|k| - 1]) then 0
    else if Column(k[..|k| - 1]) + 1 == LINE_WIDTH then 0
    else Column(k[..|k| - 1]) + 1
  }

  /** A line is full after the last character of k: that character is
      printable and ends the line at its last column. */
  predicate FullLine(k: string) {
    k != [] && !IsLineEnd(k[|k| - 1]) && Column(k) == 0
  }

  /** The number of full lines in k. */
  function FullLines(k: string): nat {
    if k == [] then 0 else FullLines(k[..|k| - 1]) + (if FullLine(k) then 1 else 0)
  }

  /** What a receiver should print for k: each character (the backquote as
      an apostrophe), and CR LF after each full line. */
  function Printed(k: string): string {
    if k == [] then []
    else Printed(k[..|k| - 1]) + [Canonical(k[|k| - 1])] + (if FullLine(k) then CRLF else [])
  }

  /** The characters of text that still match no table once upper-cased. */
  function Drop(text: string): string {
    if text == [] then []
    else Drop(text[..|text| - 1]) + (if FindMode(UpperChar(text[|text| - 1])).Some? then [text[|text| - 1]] else [])
  }

  /** The number of LTRS and FIGS frames in a run of frames, read from the
      end. */
  function ShiftFrameCount(frames: string): nat
  {
    if |frames| < FRAME_BITS then 0
    else
      var f := frames[|frames| - FRAME_BITS..];
      ShiftFrameCount(frames[..|frames| - FRAME_BITS]) + (if f == LTRS || f == FIGS then 1 else 0)
  }

  // ---------------------------------------------------------------------
  // Small facts

  lemma KeptSnoc(s: string, c: char)
    ensures Kept(s + [c]) == Kept(s) + (if FindMode(c).Some? then [c] else [])
  {
    assert (s + [c])[..|s|] == s;
  }

  lemma {:induction false} KeptAllMapped(s: string)
    ensures AllMapped(Kept(s))
  {
    if s != [] {
      KeptAllMapped(s[..|s| - 1]);
    }
  }

  /** The shift facts for one more kept character. */
  lemma KeptShift(k: string, c: char)
    requires AllMapped(k) && FindMode(c).Some?
    ensures AllMapped(k + [c])
    ensures ShiftAfter(k + [c]) == FindMode(c).value
    ensures ModeChanges(k + [c]) == ModeChanges(k) + (if FindMode(c).value != ShiftAfter(k) then 1 else 0)
  {
    assert (k + [c])[..|k|] == k;
  }

  lemma FrameLengths(m: Mode, c: char)
    requires Lookup(m, c).Some?
    ensures |Lookup(m, c).value| == FRAME_BITS && IsBinary(Lookup(m, c).value)
    ensures |ShiftFrame(m)| == FRAME_BITS && IsBinary(ShiftFrame(m))
    ensures |LineBreakFrames()| == 2 * FRAME_BITS && IsBinary(LineBreakFrames())
  {
    TableFramesWellFormed();
    FrameIsBinary(Lookup(m, c).value);
    FrameIsBinary(ShiftFrame(m));
    LineBreakFramesValue();
    FrameIsBinary(Wrap("00000"));
    FrameIsBinary(Wrap("00010"));
  }

  lemma FrameIsBinary(f: string)
    requires IsFrame(f)
    ensures IsBinary(f)
  {
    forall i | 0 <= i < |f| ensures IsBit(f[i]) {
      if i < 2 {
        assert f[i] == f[..2][i];
      } else if i < 7 {
        assert f[i] == f[2..7][i - 2];
      } else {
        assert f[i] == f[7..][0];
      }
    }
  }

  // ---------------------------------------------------------------------
  // The encoder's state follows the text

  /** One turn of the loop counts the character into the line, starting
      over at LINE_WIDTH. */
  lemma StepCounts(st: EncoderState, c: char)
    requires st.lineLength < LINE_WIDTH && FindMode(c).Some?
    ensures Step(st, c).lineLength ==
      if IsLineEnd(c) || st.lineLength + 1 == LINE_WIDTH then 0 else st.lineLength + 1
  {
  }

  /** The loop's current_mode is the table of the last kept character, or
      letters before the first. */
  lemma {:induction false} RunMode(s: string)
    ensures AllMapped(Kept(s))
    ensures Run(s).mode == ShiftAfter(Kept(s))
  {
    KeptAllMapped(s);
    if s != [] {
      var p, c := s[..|s| - 1], s[|s| - 1];
      assert Run(s) == Step(Run(p), c);
      RunMode(p);
      KeptSnoc(p, c);
      if FindMode(c).Some? {
        KeptShift(Kept(p), c);
      }
    }
  }

  /** Counting modulo LINE_WIDTH, one step at a time. */
  lemma ModSucc(x: nat)
    ensures (x + 1) % LINE_WIDTH == if x % LINE_WIDTH + 1 == LINE_WIDTH then 0 else x % LINE_WIDTH + 1
  {
  }

  /** The column is the number of characters since the last CR or LF,
      modulo LINE_WIDTH. */
  lemma {:induction false} ColumnIsRunLength(k: string)
    ensures Column(k) == RunLength(k) % LINE_WIDTH
  {
    if k != [] && !IsLineEnd(k[|k| - 1]) {
      var p := k[..|k| - 1];
      ColumnIsRunLength(p);
      ModSucc(RunLength(p));
    }
  }

  /** One turn of the loop moves its line count as the column moves. */
  lemma StepColumn(st: EncoderState, k: string, c: char)
    requires st.lineLength == Column(k) < LINE_WIDTH
    ensures Step(st, c).lineLength == Column(k + (if FindMode(c).Some? then [c] else [])) < LINE_WIDTH
  {
    if FindMode(c).Some? {
      assert (k + [c])[..|k|] == k && (k + [c])[|k|] == c;
      assert Column(k + [c]) == if IsLineEnd(c) || Column(k) + 1 == LINE_WIDTH then 0 else Column(k) + 1;
      StepCounts(st, c);
    } else {
      assert k + [] == k;
    }
  }

  /** The loop's line count is the column of the kept characters. */
  lemma {:induction false} RunColumn(s: string)
    ensures Run(s).lineLength == Column(Kept(s)) < LINE_WIDTH
  {
    if s != [] {
      var p, c := s[..|s| - 1], s[|s| - 1];
      assert Run(s) == Step(Run(p), c);
      RunColumn(p);
      KeptSnoc(p, c);
      StepColumn(Run(p), Kept(p), c);
    }
  }

  /** The loop's line count is the number of kept characters since the last
      CR or LF, modulo LINE_WIDTH. */
  lemma RunLine(s: string)
    ensures Run(s).lineLength == RunLength(Kept(s)) % LINE_WIDTH
  {
    RunColumn(s);
    ColumnIsRunLength(Kept(s));
  }

  // ---------------------------------------------------------------------
  // The frames each kept character adds

  /** The frames for the last of the kept characters k: a shift frame when
      its table is not the shift the earlier characters left, its own
      frame, and CR LF when it fills the line. */
  function LastFrames(k: string): string
    requires AllMapped(k) && k != []
  {
    var p, c := k[..|k| - 1], k[|k| - 1];
    var m := FindMode(c).value;
    (if m != ShiftAfter(p) then ShiftFrame(m) else []) + Lookup(m, c).value
      + (if FullLine(k) then LineBreakFrames() else [])
  }

  /** The frames after the preamble for the kept characters k. */
  function FramesFor(k: string): string
    requires AllMapped(k)
  {
    if k == [] then [] else FramesFor(k[..|k| - 1]) + LastFrames(k)
  }

  lemma {:induction false} ColumnBound(k: string)
    ensures Column(k) < LINE_WIDTH
  {
    if k != [] && !IsLineEnd(k[|k| - 1]) {
      ColumnBound(k[..|k| - 1]);
    }
  }

  /** A character fills the line exactly when the column before it is the
      last one of the line. */
  lemma FullLineAt(k: string, c: char)
    ensures FullLine(k + [c]) <==> !IsLineEnd(c) && Column(k) + 1 == LINE_WIDTH
  {
    assert (k + [c])[..|k|] == k && (k + [c])[|k|] == c;
    ColumnBound(k);
  }

  /** A line is full exactly when a run of printable characters reaches a
      multiple of LINE_WIDTH. */
  lemma FullLineMeaning(k: string)
    ensures FullLine(k) <==> k != [] && !IsLineEnd(k[|k| - 1]) && RunLength(k) % LINE_WIDTH == 0
  {
    ColumnIsRunLength(k);
  }

  lemma AppendAssoc(a: string, b: string, c: string)
    ensures a + b + c == a + (b + c)
  {
  }

  lemma AppendAssoc4(a: string, b: string, c: string, d: string)
    ensures a + b + c + d == a + (b + c + d)
  {
    assert a + b + c + d == a + (b + c + d);
  }

  /** LastFrames of one more kept character, in the terms of Step. */
  lemma LastFramesSnoc(k: string, c: char)
    requires AllMapped(k) && FindMode(c).Some?
    ensures AllMapped(k + [c])
    ensures FramesFor(k + [c]) == FramesFor(k) + LastFrames(k + [c])
    ensures LastFrames(k + [c]) ==
      var m := FindMode(c).value;
      (if m != ShiftAfter(k) then ShiftFrame(m) else []) + Lookup(m, c).value
        + (if FullLine(k + [c]) then LineBreakFrames() else [])
  {
    KeptShift(k, c);
    assert (k + [c])[..|k|] == k && (k + [c])[|k|] == c;
  }

  /** One turn of the loop appends the frames of the character. */
  lemma StepBits(st: EncoderState, k: string, c: char)
    requires AllMapped(k) && FindMode(c).Some?
    requires st.mode == ShiftAfter(k) && st.lineLength == Column(k) < LINE_WIDTH
    ensures AllMapped(k + [c])
    ensures Step(st, c).bits == st.bits + LastFrames(k + [c])
  {
    FullLineAt(k, c);
    LastFramesSnoc(k, c);
    var m := FindMode(c).value;
    var sh := if m != st.mode then ShiftFrame(m) else [];
    var br := if FullLine(k + [c]) then LineBreakFrames() else [];
    var f := Lookup(m, c).value;
    StepCounts(st, c);
    assert st.bits + sh == if m != st.mode then st.bits + ShiftFrame(m) else st.bits;
    assert Step(st, c).bits == st.bits + sh + f + br;
    AppendAssoc4(st.bits, sh, f, br);
  }

  /** One turn of the loop keeps the output equal to the preamble and the
      frames of the kept characters. */
  lemma StepFrames(st: EncoderState, k: string, c: char)
    requires AllMapped(k) && st.mode == ShiftAfter(k) && st.lineLength == Column(k) < LINE_WIDTH
    requires st.bits == PREAMBLE + FramesFor(k)
    ensures AllMapped(k + (if FindMode(c).Some? then [c] else []))
    ensures Step(st, c).bits == PREAMBLE + FramesFor(k + (if FindMode(c).Some? then [c] else []))
  {
    if FindMode(c).Some? {
      StepBits(st, k, c);
      LastFramesSnoc(k, c);
      AppendAssoc(PREAMBLE, FramesFor(k), LastFrames(k + [c]));
    } else {
      assert k + [] == k;
    }
  }

  /** The output is the preamble and then the frames of the kept
      characters. */
  lemma {:induction false} RunBits(s: string)
    ensures AllMapped(Kept(s))
    ensures Run(s).bits == PREAMBLE + FramesFor(Kept(s))
  {
    KeptAllMapped(s);
    if s != [] {
      var p, c := s[..|s| - 1], s[|s| - 1];
      assert Run(s) == Step(Run(p), c);
      RunBits(p);
      RunMode(p);
      RunColumn(p);
      KeptSnoc(p, c);
      StepFrames(Run(p), Kept(p), c);
    }
  }

  // ---------------------------------------------------------------------
  // Length and alphabet of the frames

  lemma BinaryAppend(a: string, b: string)
    requires IsBinary(a) && IsBinary(b)
    ensures IsBinary(a + b)
  {
    assert forall i :: 0 <= i < |b| ==> (a + b)[|a| + i] == b[i];
  }

  /** The frames for one character: their number and their alphabet. */
  lemma LastFramesShape(k: string)
    requires AllMapped(k) && k != []
    ensures |LastFrames(k)| == FRAME_BITS *
      (1 + (if FindMode(k[|k| - 1]).value != ShiftAfter(k[..|k| - 1]) then 1 else 0) + 2 * (if FullLine(k) then 1 else 0))
    ensures IsBinary(LastFrames(k))
  {
    var p, c := k[..|k| - 1], k[|k| - 1];
    var m := FindMode(c).value;
    FrameLengths(m, c);
    var sh := if m != ShiftAfter(p) then ShiftFrame(m) else [];
    var br := if FullLine(k) then LineBreakFrames() else [];
    assert IsBinary(sh) && IsBinary(br);
    BinaryAppend(sh, Lookup(m, c).value);
    BinaryAppend(sh + Lookup(m, c).value, br);
  }

  /** Each kept character costs one frame, each shift change one more, and
      each full line two more. */
  lemma {:induction false} FramesForLength(k: string)
    requires AllMapped(k)
    ensures |FramesFor(k)| == FRAME_BITS * (|k| + ModeChanges(k) + 2 * FullLines(k))
  {
    if k != [] {
      FramesForLength(k[..|k| - 1]);
      LastFramesShape(k);
    }
  }

  lemma {:induction false} FramesForBinary(k: string)
    requires AllMapped(k)
    ensures IsBinary(FramesFor(k))
  {
    if k != [] {
      FramesForBinary(k[..|k| - 1]);
      LastFramesShape(k);
      BinaryAppend(FramesFor(k[..|k| - 1]), LastFrames(k));
    }
  }

  // ---------------------------------------------------------------------
  // What a receiver prints

  /** Reading a shift frame sent only when the shift changes. */
  lemma ShiftIfNeededReceived(r0: ReceiverState, x: string, mode: Mode, m: Mode, t: string)
    requires ReceiveFrames(r0, x) == Some(ReceiverState(mode, t))
    ensures ReceiveFrames(r0, x + (if m != mode then ShiftFrame(m) else [])) == Some(ReceiverState(m, t))
  {
    if m != mode {
      ShiftReceived(ReceiverState(mode, t), m);
      ReceiveOneMore(r0, x, ShiftFrame(m));
    } else {
      assert x + [] == x;
    }
  }

  /** Reading a character frame in its own shift. */
  lemma CharacterFrameReceived(r0: ReceiverState, y: string, m: Mode, c: char, t: string)
    requires FindMode(c) == Some(m) && ReceiveFrames(r0, y) == Some(ReceiverState(m, t))
    ensures ReceiveFrames(r0, y + Lookup(m, c).value) == Some(ReceiverState(m, t + [Canonical(c)]))
  {
    CharacterReceived(ReceiverState(m, t), c);
    ReceiveOneMore(r0, y, Lookup(m, c).value);
  }

  /** Reading a line break sent only when the line is full. */
  lemma BreakIfFullReceived(r0: ReceiverState, z: string, full: bool, m: Mode, t: string)
    requires ReceiveFrames(r0, z) == Some(ReceiverState(m, t))
    ensures ReceiveFrames(r0, z + (if full then LineBreakFrames() else [])) ==
      Some(ReceiverState(m, t + (if full then CRLF else [])))
  {
    if full {
      LineBreakReceived(r0, z);
    } else {
      assert z + [] == z && t + [] == t;
    }
  }

  /** Reading the frames of the last kept character. */
  lemma LastFramesReceived(r0: ReceiverState, x: string, k: string, t: string)
    requires AllMapped(k) && k != []
    requires ReceiveFrames(r0, x) == Some(ReceiverState(ShiftAfter(k[..|k| - 1]), t))
    ensures ReceiveFrames(r0, x + LastFrames(k)) ==
      Some(ReceiverState(ShiftAfter(k), t + [Canonical(k[|k| - 1])] + (if FullLine(k) then CRLF else [])))
  {
    var p, c := k[..|k| - 1], k[|k| - 1];
    var m := FindMode(c).value;
    var sh := if m != ShiftAfter(p) then ShiftFrame(m) else [];
    var f := Lookup(m, c).value;
    var br := if FullLine(k) then LineBreakFrames() else [];
    AppendAssoc4(x, sh, f, br);
    ShiftIfNeededReceived(r0, x, ShiftAfter(p), m, t);
    CharacterFrameReceived(r0, x + sh, m, c, t);
    BreakIfFullReceived(r0, x + sh + f, FullLine(k), m, t + [Canonical(c)]);
  }

  /** Once a receiver is in letters shift with nothing printed, the frames
      of k make it print Printed(k) and leave it in k's last shift. */
  lemma {:induction false} FramesForReceived(r0: ReceiverState, a: string, k: string)
    requires AllMapped(k)
    requires ReceiveFrames(r0, a) == Some(ReceiverState(Letters, []))
    ensures ReceiveFrames(r0, a + FramesFor(k)) == Some(ReceiverState(ShiftAfter(k), Printed(k)))
  {
    if k == [] {
      assert a + FramesFor(k) == a;
    } else {
      var p := k[..|k| - 1];
      FramesForReceived(r0, a, p);
      AppendAssoc(a, FramesFor(p), LastFrames(k));
      LastFramesReceived(r0, a + FramesFor(p), k, Printed(p));
    }
  }

  // ---------------------------------------------------------------------
  // Shift frames

  lemma ShiftFrameCountOneMore(a: string, f: string)
    requires |f| == FRAME_BITS
    ensures ShiftFrameCount(a + f) == ShiftFrameCount(a) + (if f == LTRS || f == FIGS then 1 else 0)
  {
    var all := a + f;
    assert all[..|all| - FRAME_BITS] == a;
    assert all[|all| - FRAME_BITS..] == f;
  }

  /** Character and line-break frames are never shift frames. */
  lemma NotShiftFrames(m: Mode, c: char)
    requires Lookup(m, c).Some?
    ensures Lookup(m, c).value != LTRS && Lookup(m, c).value != FIGS
    ensures Wrap("00000") != LTRS && Wrap("00000") != FIGS
    ensures Wrap("00010") != LTRS && Wrap("00010") != FIGS
  {
    ReservedCodes();
    WrapData("00000");
    WrapData("00010");
    if m == Letters {
      LetterFramesDecode();
    } else {
      FigureFramesDecode();
    }
  }

  lemma ShiftIfNeededCounted(x: string, mode: Mode, m: Mode)
    ensures ShiftFrameCount(x + (if m != mode then ShiftFrame(m) else [])) ==
      ShiftFrameCount(x) + (if m != mode then 1 else 0)
  {
    if m != mode {
      ReservedCodes();
      ShiftFrameCountOneMore(x, ShiftFrame(m));
    } else {
      assert x + [] == x;
    }
  }

  lemma BreakIfFullCounted(z: string, full: bool)
    ensures ShiftFrameCount(z + (if full then LineBreakFrames() else [])) == ShiftFrameCount(z)
  {
    if full {
      LineBreakFramesValue();
      NotShiftFrames(Letters, '\r');
      AppendAssoc(z, Wrap("00000"), Wrap("00010"));
      ShiftFrameCountOneMore(z, Wrap("00000"));
      ShiftFrameCountOneMore(z + Wrap("00000"), Wrap("00010"));
    } else {
      assert z + [] == z;
    }
  }

  lemma LastFramesShifts(x: string, k: string)
    requires AllMapped(k) && k != []
    ensures ShiftFrameCount(x + LastFrames(k)) ==
      ShiftFrameCount(x) + (if FindMode(k[|k| - 1]).value != ShiftAfter(k[..|k| - 1]) then 1 else 0)
  {
    var p, c := k[..|k| - 1], k[|k| - 1];
    var m := FindMode(c).value;
    var sh := if m != ShiftAfter(p) then ShiftFrame(m) else [];
    var f := Lookup(m, c).value;
    var br := if FullLine(k) then LineBreakFrames() else [];
    FrameLengths(m, c);
    NotShiftFrames(m, c);
    AppendAssoc4(x, sh, f, br);
    ShiftIfNeededCounted(x, ShiftAfter(p), m);
    ShiftFrameCountOneMore(x + sh, f);
    BreakIfFullCounted(x + sh + f, FullLine(k));
  }

  /** The frames of k hold exactly one shift frame per shift change. */
  lemma {:induction false} FramesForShifts(a: string, k: string)
    requires AllMapped(k)
    ensures ShiftFrameCount(a + FramesFor(k)) == ShiftFrameCount(a) + ModeChanges(k)
  {
    if k == [] {
      assert a + FramesFor(k) == a;
    } else {
      var p := k[..|k| - 1];
      FramesForShifts(a, p);
      AppendAssoc(a, FramesFor(p), LastFrames(k));
      LastFramesShifts(a + FramesFor(p), k);
    }
  }

  // ---------------------------------------------------------------------
  // The whole output of text_to_baudot

  /** Twenty idle marks, then LTRS. */
  lemma PreambleShape()
    ensures |PREAMBLE| == IDLE_BITS + FRAME_BITS && IsBinary(PREAMBLE)
    ensures PREAMBLE[..IDLE_BITS] == Marks(IDLE_BITS) && PREAMBLE[IDLE_BITS..] == LTRS
  {
    var m := Marks(IDLE_BITS);
    ReservedCodes();
    FrameIsBinary(LTRS);
    assert IsBinary(m);
    BinaryAppend(m, LTRS);
    assert (m + LTRS)[..|m|] == m && (m + LTRS)[|m|..] == LTRS;
  }

  /** The output is the preamble and then the frames of the upper-cased
      characters found in a table. */
  lemma EncodingFrames(text: string)
    ensures AllMapped(Kept(Upper(text)))
    ensures Encoding(text) == PREAMBLE + FramesFor(Kept(Upper(text)))
  {
    RunBits(Upper(text));
  }

  /** The output length: 20 marks, then 8 bits for LTRS, for every mapped
      character, for every shift change, and twice for every full line. */
  lemma EncodingLength(text: string)
    ensures AllMapped(Kept(Upper(text)))
    ensures var k := Kept(Upper(text));
      |Encoding(text)| == IDLE_BITS + FRAME_BITS * (1 + |k| + ModeChanges(k) + 2 * FullLines(k))
  {
    EncodingFrames(text);
    FramesForLength(Kept(Upper(text)));
    PreambleShape();
  }

  /** The output holds only MARK_CODE and SPACE_CODE. */
  lemma EncodingBinary(text: string)
    ensures IsBinary(Encoding(text))
  {
    EncodingFrames(text);
    FramesForBinary(Kept(Upper(text)));
    PreambleShape();
    BinaryAppend(PREAMBLE, FramesFor(Kept(Upper(text))));
  }

  /** Every output starts with twenty marks and an LTRS frame, and after
      the marks it is LTRS and the frames of the text. */
  lemma EncodingStart(text: string)
    ensures AllMapped(Kept(Upper(text)))
    ensures |Encoding(text)| >= IDLE_BITS + FRAME_BITS
    ensures Encoding(text)[..IDLE_BITS] == Marks(IDLE_BITS)
    ensures Encoding(text)[IDLE_BITS..] == LTRS + FramesFor(Kept(Upper(text)))
    ensures Encoding(text)[IDLE_BITS..IDLE_BITS + FRAME_BITS] == LTRS
  {
    EncodingFrames(text);
    PreambleShape();
    var m, f := Marks(IDLE_BITS), FramesFor(Kept(Upper(text)));
    assert PREAMBLE == m + LTRS;
    AppendAssoc(m, LTRS, f);
    var e := m + (LTRS + f);
    assert e[..|m|] == m && e[|m|..] == LTRS + f;
    assert (LTRS + f)[..FRAME_BITS] == LTRS;
  }

  /** The output is decodable: a receiver, in whichever shift it powered
      on, prints the upper-cased text without the characters found in no
      table, with the backquote as an apostrophe and CR LF after every
      LINE_WIDTH printable characters in a row. */
  lemma RoundTrip(text: string, initial: Mode)
    ensures Receive(initial, Encoding(text)) == Some(Printed(Kept(Upper(text))))
  {
    EncodingStart(text);
    var r0 := ReceiverState(initial, []);
    assert [] + LTRS == LTRS;
    ReceiveOneMore(r0, [], LTRS);
    ShiftReceived(r0, Letters);
    assert ReceiveFrames(r0, LTRS) == Some(ReceiverState(Letters, []));
    FramesForReceived(r0, LTRS, Kept(Upper(text)));
  }

  /** After the idle marks, the output holds one shift frame for the
      opening LTRS and one for each change of table, and no other. */
  lemma EncodingShifts(text: string)
    ensures AllMapped(Kept(Upper(text))) && |Encoding(text)| >= IDLE_BITS
    ensures ShiftFrameCount(Encoding(text)[IDLE_BITS..]) == 1 + ModeChanges(Kept(Upper(text)))
  {
    EncodingStart(text);
    ReservedCodes();
    assert [] + LTRS == LTRS;
    ShiftFrameCountOneMore([], LTRS);
    FramesForShifts(LTRS, Kept(Upper(text)));
  }

  // ---------------------------------------------------------------------
  // Characters found in no table

  /** Running the loop over only the kept characters gives the same state. */
  lemma {:induction false} RunKept(s: string)
    ensures Run(Kept(s)) == Run(s)
  {
    if s != [] {
      var p, c := s[..|s| - 1], s[|s| - 1];
      assert Run(s) == Step(Run(p), c);
      RunKept(p);
      KeptSnoc(p, c);
      var k := Kept(p);
      if FindMode(c).Some? {
        assert (k + [c])[..|k|] == k && (k + [c])[|k|] == c;
      } else {
        assert k + [] == k;
      }
    }
  }

  lemma UpperSnoc(t: string, x: char)
    ensures Upper(t + [x]) == Upper(t) + [UpperChar(x)]
  {
  }

  /** Upper-casing what Drop keeps is keeping what upper-casing leaves. */
  lemma {:induction false} UpperDrop(text: string)
    ensures Upper(Drop(text)) == Kept(Upper(text))
  {
    if text != [] {
      var p, x := text[..|text| - 1], text[|text| - 1];
      assert text == p + [x];
      UpperDrop(p);
      UpperSnoc(p, x);
      KeptSnoc(Upper(p), UpperChar(x));
      if FindMode(UpperChar(x)).Some? {
        UpperSnoc(Drop(p), x);
      } else {
        assert Drop(p) + [] == Drop(p);
      }
    }
  }

  lemma {:induction false} DropAppend(a: string, b: string)
    ensures Drop(a + b) == Drop(a) + Drop(b)
  {
    if b == [] {
      assert a + b == a && Drop(a) + Drop(b) == Drop(a);
    } else {
      var p, x := b[..|b| - 1], b[|b| - 1];
      assert (a + b)[..|a + b| - 1] == a + p && (a + b)[|a + b| - 1] == x;
      DropAppend(a, p);
    }
  }

  /** The output depends only on the characters that upper-case into a
      table. */
  lemma EncodingDrop(text: string)
    ensures Encoding(Drop(text)) == Encoding(text)
  {
    UpperDrop(text);
    RunKept(Upper(text));
  }

  /** A character found in no table, wherever it stands, leaves the output
      as it would be without it. */
  lemma UnmappedIgnored(a: string, x: char, b: string)
    requires FindMode(UpperChar(x)).None?
    ensures Encoding(a + [x] + b) == Encoding(a + b)
  {
    DropAppend(a + [x], b);
    DropAppend(a, [x]);
    DropAppend(a, b);
    assert [x][..0] == [];
    assert Drop([x]) == [];
    assert Drop(a) + [] == Drop(a);
    EncodingDrop(a + [x] + b);
    EncodingDrop(a + b);
  }

  // ---------------------------------------------------------------------
  // Shift frames only where the table changes

  /** Text from the letters table alone needs no shift change. */
  lemma {:induction false} LettersOnly(k: string)
    requires forall i :: 0 <= i < |k| ==> FindMode(k[i]) == Some(Letters)
    ensures AllMapped(k) && ModeChanges(k) == 0
  {
    if k != [] {
      LettersOnly(k[..|k| - 1]);
    }
  }

  /** Text from the figures table alone needs exactly one shift change, at
      its start. */
  lemma {:induction false} FiguresOnly(k: string)
    requires k != [] && forall i :: 0 <= i < |k| ==> FindMode(k[i]) == Some(Figures)
    ensures AllMapped(k) && ModeChanges(k) == 1
  {
    if |k| > 1 {
      FiguresOnly(k[..|k| - 1]);
    }
  }

  /** Keeping the table characters of text from the letters table alone
      needs no shift change. */
  lemma {:induction false} LettersKept(s: string)
    requires forall i :: 0 <= i < |s| ==> FindMode(s[i]) == Some(Letters)
    ensures AllMapped(Kept(s)) && ShiftAfter(Kept(s)) == Letters && ModeChanges(Kept(s)) == 0
  {
    KeptAllMapped(s);
    if s != [] {
      var p, c := s[..|s| - 1], s[|s| - 1];
      assert s == p + [c];
      assert FindMode(c) == Some(Letters);
      LettersKept(p);
      KeptSnoc(p, c);
      KeptShift(Kept(p), c);
    }
  }

  /** The output for text whose characters are all in the letters table
      holds no shift frame but the opening LTRS. */
  lemma LettersTextShifts(text: string)
    requires forall i :: 0 <= i < |text| ==> FindMode(UpperChar(text[i])) == Some(Letters)
    ensures |Encoding(text)| >= IDLE_BITS && ShiftFrameCount(Encoding(text)[IDLE_BITS..]) == 1
  {
    LettersKept(Upper(text));
    EncodingShifts(text);
  }

  // ---------------------------------------------------------------------
  // Particular cases

  /** The empty text gives only the preamble: 28 bits. */
  lemma EmptyText()
    ensures Encoding("") == PREAMBLE && |Encoding("")| == 28
  {
    assert Upper("") == "";
    PreambleShape();
  }

  /** Two letters: the preamble, then their frames without a shift. */
  lemma TwoLetters()
    ensures Encoding("AB") == PREAMBLE + Wrap("11000") + Wrap("10011")
  {
    var u := Upper("AB");
    assert u == "AB";
    assert u[..1] == "A" && "A"[..0] == [];
    assert FindMode('A') == Some(Letters) && Lookup(Letters, 'A') == Some(Wrap("11000"));
    assert FindMode('B') == Some(Letters) && Lookup(Letters, 'B') == Some(Wrap("10011"));
    assert Run("A") == EncoderState(Letters, 1, PREAMBLE + Wrap("11000"));
  }

  lemma PrefixTrans(a: string, b: string, c: string)
    requires |a| <= |b| && b[..|a|] == a && |b| <= |c| && c[..|b|] == b
    ensures |a| <= |c| && c[..|a|] == a
  {
    assert c[..|a|] == c[..|b|][..|a|];
  }

  /** A prefix of the text gives a prefix of the output. */
  lemma {:induction false} RunPrefix(s: string, n: nat)
    requires n <= |s|
    ensures |Run(s[..n]).bits| <= |Run(s).bits| && Run(s).bits[..|Run(s[..n]).bits|] == Run(s[..n]).bits
  {
    if n == |s| {
      assert s[..n] == s;
    } else {
      var p := s[..|s| - 1];
      RunPrefix(p, n);
      assert p[..n] == s[..n];
      PrefixTrans(Run(s[..n]).bits, Run(p).bits, Run(s).bits);
    }
  }

  /** A text that starts with a figures character sends FIGS and that
      character's frame straight after the preamble. */
  lemma LeadingFigure(c: char, rest: string)
    requires FindMode(UpperChar(c)) == Some(Figures)
    ensures var head := PREAMBLE + FIGS + Lookup(Figures, UpperChar(c)).value;
      |head| <= |Encoding([c] + rest)| && Encoding([c] + rest)[..|head|] == head
  {
    var u := Upper([c] + rest);
    assert u[0] == UpperChar(c);
    assert u[..1] == [UpperChar(c)] && u[..1][..0] == [];
    RunPrefix(u, 1);
    assert Run(u[..1]) == Step(INITIAL, UpperChar(c));
  }

  /** Space is found in the letters table first, although the figures
      table holds it too, so in figures shift it is sent after LTRS. */
  lemma SpaceIsLetters(st: EncoderState)
    requires st.mode == Figures
    ensures FindMode(' ') == Some(Letters) && Lookup(Figures, ' ').Some?
    ensures Step(st, ' ').mode == Letters
    ensures |Step(st, ' ').bits| >= |st.bits| + 2 * FRAME_BITS
    ensures Step(st, ' ').bits[|st.bits|..|st.bits| + 2 * FRAME_BITS] == LTRS + Lookup(Letters, ' ').value
  {
    var f := Lookup(Letters, ' ').value;
    assert f == Wrap("00100");
    var w := st.bits + LTRS + f;
    assert w[|st.bits|..|st.bits| + 2 * FRAME_BITS] == LTRS + f;
    var r := Step(st, ' ');
    assert r.bits[..|w|] == w;
  }

  /** The character that fills a line is followed by the CR and LF frames
      of the letters table, with no shift frame even in figures shift; the
      shift stays the character's and the count starts over. */
  lemma AutomaticLineBreak(st: EncoderState, c: char)
    requires FindMode(c).Some? && !IsLineEnd(c) && st.lineLength == LINE_WIDTH - 1
    ensures var m := FindMode(c).value;
      Step(st, c) == EncoderState(m, 0,
        st.bits + (if st.mode != m then ShiftFrame(m) else []) + Lookup(m, c).value + LineBreakFrames())
    ensures LineBreakFrames() == Wrap("00000") + Wrap("00010")
  {
    StepCounts(st, c);
    LineBreakFramesValue();
  }
}
