/** The Baudot encoder text_to_baudot (pyrtty.py, lines 57-91): a reference
    definition as a fold over the upper-cased characters, and the loop of the
    source proved equal to it. */
module Encoder {
  import opened BaudotCode

  /** Number of idle mark bits sent before the first frame. */
  const IDLE_BITS: nat := 20

  /** MARK_CODE * n: n idle mark bits. */
  function Marks(n: nat): (r: string)
    ensures |r| == n && forall i :: 0 <= i < n ==> r[i] == MARK_CODE
  {
    if n == 0 then [] else Marks(n - 1) + [MARK_CODE]
  }

  /** The fixed start of every transmission: twenty marks, then LTRS. */
  const PREAMBLE: string := Marks(IDLE_BITS) + LTRS

  /** The modes in the order the encoder tries their tables. */
  const MODES: seq<Mode> := [Letters, Figures]

  /** Upper-casing of one character, for the ASCII letters: a lower-case
      letter becomes the capital at the same place in the alphabet, and
      every other character is left as it is. */
  function UpperChar(c: char): (u: char)
    ensures !('a' <= u <= 'z')
    ensures 'a' <= c <= 'z' ==> 'A' <= u <= 'Z' && u as int - 'A' as int == c as int - 'a' as int
    ensures !('a' <= c <= 'z') ==> u == c
  {
    if 'a' <= c <= 'z' then (c as int - 'a' as int + 'A' as int) as char else c
  }

  /** Upper-casing an upper-cased character changes nothing. */
  lemma UpperCharIdempotent(c: char)
    ensures UpperChar(UpperChar(c)) == UpperChar(c)
  {
  }

  /** text.upper(), character by character: no lower-case letter is left. */
  function Upper(text: string): (u: string)
    ensures |u| == |text|
    ensures forall i :: 0 <= i < |text| ==> u[i] == UpperChar(text[i])
    ensures forall i :: 0 <= i < |u| ==> !('a' <= u[i] <= 'z')
  {
    seq(|text|, i requires 0 <= i < |text| => UpperChar(text[i]))
  }

  /** Upper-casing an upper-cased text changes nothing. */
  lemma UpperIdempotent(text: string)
    ensures Upper(Upper(text)) == Upper(text)
  {
    forall i | 0 <= i < |text| ensures Upper(Upper(text))[i] == Upper(text)[i] {
      UpperCharIdempotent(text[i]);
    }
  }

  /** The table in which the encoder finds c: letters first, then figures. */
  function FindMode(c: char): (r: Option<Mode>)
    ensures r == Some(Letters) <==> Lookup(Letters, c).Some?
    ensures r == Some(Figures) <==> Lookup(Letters, c).None? && Lookup(Figures, c).Some?
    ensures r.None? <==> Lookup(Letters, c).None? && Lookup(Figures, c).None?
  {
    if Lookup(Letters, c).Some? then Some(Letters)
    else if Lookup(Figures, c).Some? then Some(Figures)
    else None
  }

  predicate IsLineEnd(c: char) {
    c == '\r' || c == '\n'
  }

  /** The letters frames of a string of letters-table characters. */
  function LettersFrames(s: string): string
    requires forall i :: 0 <= i < |s| ==> Lookup(Letters, s[i]).Some?
  {
    if s == [] then [] else LettersFrames(s[..|s| - 1]) + Lookup(Letters, s[|s| - 1]).value
  }

  /** What an automatic line break sends: the letters frames of CR and LF. */
  function LineBreakFrames(): string {
    LettersFrames(CRLF)
  }

  lemma LettersFramesSnoc(s: string, c: char)
    requires forall i :: 0 <= i < |s| ==> Lookup(Letters, s[i]).Some?
    requires Lookup(Letters, c).Some?
    ensures LettersFrames(s + [c]) == LettersFrames(s) + Lookup(Letters, c).value
  {
    assert (s + [c])[..|s|] == s;
  }

  /** An automatic line break is the letters frame of CR, then that of LF. */
  lemma LineBreakFramesValue()
    ensures Lookup(Letters, '\r') == Some(Wrap("00000")) && Lookup(Letters, '\n') == Some(Wrap("00010"))
    ensures LineBreakFrames() == Wrap("00000") + Wrap("00010")
  {
    assert LettersCode('\r') == Some("00000") && LettersCode('\n') == Some("00010");
    var e: string := [];
    assert CRLF == e + ['\r'] + ['\n'];
    LettersFramesSnoc(e, '\r');
    LettersFramesSnoc(e + ['\r'], '\n');
  }

  /** The variables of text_to_baudot's loop: current_mode, the length of
      chars_in_this_line and baudot_str. */
  datatype EncoderState = EncoderState(mode: Mode, lineLength: nat, bits: string)

  const INITIAL: EncoderState := EncoderState(Letters, 0, PREAMBLE)

  /** One turn of the loop, for the upper-cased character c. */
  function Step(st: EncoderState, c: char): (r: EncoderState)
    ensures |st.bits| <= |r.bits| && r.bits[..|st.bits|] == st.bits
    ensures FindMode(c).None? ==> r == st
    ensures FindMode(c).Some? ==> r.mode == FindMode(c).value
  {
    match FindMode(c)
    case None => st
    case Some(m) =>
      var shifted := if st.mode != m then st.bits + ShiftFrame(m) else st.bits;
      var withChar := shifted + Lookup(m, c).value;
      var count := if IsLineEnd(c) then 0 else st.lineLength + 1;
      if count >= LINE_WIDTH then EncoderState(m, 0, withChar + LineBreakFrames())
      else EncoderState(m, count, withChar)
  }

  /** The loop's state after the upper-cased characters s. */
  function Run(s: string): (r: EncoderState)
    ensures r.lineLength < LINE_WIDTH && |PREAMBLE| <= |r.bits|
  {
    if s == [] then INITIAL else Step(Run(s[..|s| - 1]), s[|s| - 1])
  }

  /** The result of text_to_baudot(text). */
  function Encoding(text: string): (r: string)
    ensures |r| >= IDLE_BITS + FRAME_BITS
  {
    Run(Upper(text)).bits
  }

  /** The encoding is case-insensitive: a text and its upper-cased form
      give the same bits. */
  lemma CaseInsensitive(text: string)
    ensures Encoding(Upper(text)) == Encoding(text)
  {
    UpperIdempotent(text);
  }

  /** Every lower-case ASCII letter upper-cases into the letters table. */
  lemma LowerCaseLetters(c: char)
    requires 'a' <= c <= 'z'
    ensures FindMode(UpperChar(c)) == Some(Letters)
  {
  }

  /** The line break of text_to_baudot: the letters frame of each character
      of CRLF, appended in turn. */
  method AppendLineBreak(baudot: string) returns (r: string)
    ensures r == baudot + LineBreakFrames()
  {
    r := baudot;
    for k := 0 to |CRLF|
      invariant r == baudot + LettersFrames(CRLF[..k])
    {
      assert CRLF[..k + 1][..k] == CRLF[..k];
      r := r + Lookup(Letters, CRLF[k]).value;
    }
    assert CRLF[..|CRLF|] == CRLF;
  }

  /** One turn of text_to_baudot's loop, for the upper-cased character c:
      the inner loop over the two tables, which stops at the first one
      holding c. */
  method EncodeCharacter(currentMode: Mode, lineLength: nat, baudot: string, c: char)
    returns (newMode: Mode, newLength: nat, newBaudot: string)
    ensures EncoderState(newMode, newLength, newBaudot) == Step(EncoderState(currentMode, lineLength, baudot), c)
  {
    newMode, newLength, newBaudot := currentMode, lineLength, baudot;
    assert MODES[0] == Letters && MODES[1] == Figures;
    var j := 0;
    while j < |MODES|
      invariant 0 <= j <= |MODES|
      invariant j > 0 ==> Lookup(Letters, c).None?
      invariant j > 1 ==> Lookup(Figures, c).None?
      invariant newMode == currentMode && newLength == lineLength && newBaudot == baudot
    {
      var mode := MODES[j];
      var entry := Lookup(mode, c);
      if entry.Some? {
        assert FindMode(c) == Some(mode);
        if newMode != mode {
          newBaudot := newBaudot + ShiftFrame(mode);
          newMode := mode;
        }
        newBaudot := newBaudot + entry.value;
        if IsLineEnd(c) {
          newLength := 0;
        } else {
          newLength := newLength + 1;
        }
        if newLength >= LINE_WIDTH {
          newBaudot := AppendLineBreak(newBaudot);
          newLength := 0;
        }
        break;
      }
      j := j + 1;
    }
  }

  /** text_to_baudot: twenty marks and LTRS, then each character of the
      upper-cased text in turn. */
  method TextToBaudot(text: string) returns (baudot: string)
    ensures baudot == Encoding(text)
  {
    var currentMode := Letters;
    baudot := Marks(IDLE_BITS) + ShiftFrame(Letters);
    var lineLength: nat := 0;
    var upper := Upper(text);
    for i := 0 to |upper|
      invariant EncoderState(currentMode, lineLength, baudot) == Run(upper[..i])
    {
      assert upper[..i + 1][..i] == upper[..i];
      currentMode, lineLength, baudot := EncodeCharacter(currentMode, lineLength, baudot, upper[i]);
    }
    assert upper[..|upper|] == upper;
  }
}
