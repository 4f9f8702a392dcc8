/** The framing constants and the letters/figures code table of the encoder
    (pyrtty.py, lines 14-55), and the receiving side of that table: the
    5-bit value that a frame carries and the character it stands for in
    each shift. */
module BaudotCode {

  /** An optional value, for table lookups that may fail. */
  datatype Option<T> = None | Some(value: T)

  /** The two shift states of a Baudot teleprinter. */
  datatype Mode = Letters | Figures

  const MARK_CODE: char := '1'
  const SPACE_CODE: char := '0'

  /** The start of every frame: one mark, then the space start bit. */
  const START_BIT: string := [MARK_CODE, SPACE_CODE]
  const STOP_BIT: string := [MARK_CODE]

  /** Characters printed on one line before a CR LF is inserted. */
  const LINE_WIDTH: nat := 70
  const CRLF: string := "\r\n"

  /** Number of data bits in one Baudot code. */
  const CODE_BITS: nat := 5
  /** Number of bits in one framed code: START_BIT, the code, STOP_BIT
      (see FrameBits). */
  const FRAME_BITS: nat := 8

  predicate IsBit(b: char) {
    b == MARK_CODE || b == SPACE_CODE
  }

  predicate IsBinary(s: string) {
    forall i :: 0 <= i < |s| ==> IsBit(s[i])
  }

  /** A 5-bit code written as '0'/'1' characters. */
  predicate IsCode(s: string) {
    |s| == CODE_BITS && IsBit(s[0]) && IsBit(s[1]) && IsBit(s[2]) && IsBit(s[3]) && IsBit(s[4])
  }

  /** A framed code: "10", five data bits, "1". */
  predicate IsFrame(f: string) {
    |f| == FRAME_BITS && f[..2] == START_BIT && IsCode(f[2..7]) && f[7..] == STOP_BIT
  }

  /** A frame is the start bits, one code and the stop bit. */
  lemma FrameBits()
    ensures FRAME_BITS == |START_BIT| + CODE_BITS + |STOP_BIT|
    ensures forall symb :: |Wrap(symb)| == FRAME_BITS <==> |symb| == CODE_BITS
  {
  }

  /** Brackets a code with the start bits and the stop bit. */
  function Wrap(symb: string): (r: string)
    ensures |r| == |START_BIT| + |symb| + |STOP_BIT|
    ensures r[..2] == START_BIT && r[2..|r| - 1] == symb && r[|r| - 1] == MARK_CODE
    ensures IsCode(symb) ==> IsFrame(r)
  {
    START_BIT + symb + STOP_BIT
  }

  /** The letters table (BAUDOT_CODE['letters']), as the 5-bit codes that each entry wraps. */
  function LettersCode(c: char): (r: Option<string>)
    ensures r.Some? ==> IsCode(r.value)
  {
    match c
    case 'A' => Some("11000") case 'B' => Some("10011") case 'C' => Some("01110") case 'D' => Some("10010") case 'E' => Some("10000")
    case 'F' => Some("10110") case 'G' => Some("01011") case 'H' => Some("00101") case 'I' => Some("01100") case 'J' => Some("11010")
    case 'K' => Some("11110") case 'L' => Some("01001") case 'M' => Some("00111") case 'N' => Some("00110") case 'O' => Some("00011")
    case 'P' => Some("01101") case 'Q' => Some("11101") case 'R' => Some("01010") case 'S' => Some("10100") case 'T' => Some("00001")
    case 'U' => Some("11100") case 'V' => Some("01111") case 'W' => Some("11001") case 'X' => Some("10111") case 'Y' => Some("10101")
    case 'Z' => Some("10001") case ' ' => Some("00100") case '\n' => Some("00010") case '\r' => Some("00000")
    case _ => None
  }

  /** The figures table (BAUDOT_CODE['figures']), as the 5-bit codes that each entry wraps. */
  function FiguresCode(c: char): (r: Option<string>)
    ensures r.Some? ==> IsCode(r.value)
  {
    match c
    case '1' => Some("11101") case '2' => Some("11001") case '3' => Some("10000") case '4' => Some("01010") case '5' => Some("00001")
    case '6' => Some("10101") case '7' => Some("11100") case '8' => Some("01100") case '9' => Some("00011") case '0' => Some("01101")
    case '-' => Some("11000") case '\'' => Some("11010") case '!' => Some("10110") case '&' => Some("01011") case '#' => Some("00101")
    case '(' => Some("11110") case ')' => Some("01001") case '"' => Some("10001") case '/' => Some("10111") case ':' => Some("01110")
    case ';' => Some("01111") case '?' => Some("10011") case ',' => Some("00110") case '.' => Some("00111") case '$' => Some("10010")
    case ' ' => Some("00100") case '`' => Some("11010")
    case _ => None
  }

  /** Letters shift. */
  const LTRS: string := Wrap("11111")
  /** Figures shift. */
  const FIGS: string := Wrap("11011")

  /** The framed entry BAUDOT_CODE[m][c], if c is in table m. */
  function Lookup(m: Mode, c: char): (r: Option<string>)
    ensures r.Some? <==> (if m == Letters then LettersCode(c) else FiguresCode(c)).Some?
    ensures r.Some? ==> IsFrame(r.value)
  {
    var code := if m == Letters then LettersCode(c) else FiguresCode(c);
    if code.Some? then Some(Wrap(code.value)) else None
  }

  /** The shift frame that puts a receiver into mode m. */
  function ShiftFrame(m: Mode): (r: string)
    ensures IsFrame(r) && DataValue(r) == if m == Letters then LTRS_VALUE else FIGS_VALUE
  {
    ReservedCodes();
    if m == Letters then LTRS else FIGS
  }

  // ---------------------------------------------------------------------
  // The receiving side of the table

  function BitValue(b: char): nat {
    if b == MARK_CODE then 1 else 0
  }

  /** The number a 5-bit code stands for, first bit most significant. */
  function CodeValue(code: string): (v: nat)
    requires |code| == CODE_BITS
    ensures v < 32
  {
    16 * BitValue(code[0]) + 8 * BitValue(code[1]) + 4 * BitValue(code[2]) + 2 * BitValue(code[3]) + BitValue(code[4])
  }

  /** The number carried by the data bits of a frame. */
  function DataValue(f: string): (v: nat)
    requires |f| == FRAME_BITS
    ensures v == CodeValue(f[2..7])
  {
    CodeValue(f[2..7])
  }

  /** The code value of LTRS. */
  const LTRS_VALUE: nat := 31
  /** The code value of FIGS. */
  const FIGS_VALUE: nat := 27
  /** The code value of the letters entry for carriage return. */
  const CR_VALUE: nat := 0
  /** The code value of the letters entry for line feed. */
  const LF_VALUE: nat := 2

  /** The character a receiver in letters shift prints for a code value. */
  function LetterFor(v: nat): Option<char> {
    match v
    case 24 => Some('A') case 19 => Some('B') case 14 => Some('C') case 18 => Some('D') case 16 => Some('E')
    case 22 => Some('F') case 11 => Some('G') case 5 => Some('H') case 12 => Some('I') case 26 => Some('J')
    case 30 => Some('K') case 9 => Some('L') case 7 => Some('M') case 6 => Some('N') case 3 => Some('O')
    case 13 => Some('P') case 29 => Some('Q') case 10 => Some('R') case 20 => Some('S') case 1 => Some('T')
    case 28 => Some('U') case 15 => Some('V') case 25 => Some('W') case 23 => Some('X') case 21 => Some('Y')
    case 17 => Some('Z') case 4 => Some(' ') case 2 => Some('\n') case 0 => Some('\r')
    case _ => None
  }

  /** The character a receiver in figures shift prints for a code value; the
      apostrophe and the backquote share one code, which prints as the apostrophe. */
  function FigureFor(v: nat): Option<char> {
    match v
    case 29 => Some('1') case 25 => Some('2') case 16 => Some('3') case 10 => Some('4') case 1 => Some('5')
    case 21 => Some('6') case 28 => Some('7') case 12 => Some('8') case 3 => Some('9') case 13 => Some('0')
    case 24 => Some('-') case 26 => Some('\'') case 22 => Some('!') case 11 => Some('&') case 5 => Some('#')
    case 30 => Some('(') case 9 => Some(')') case 17 => Some('"') case 23 => Some('/') case 14 => Some(':')
    case 15 => Some(';') case 19 => Some('?') case 6 => Some(',') case 7 => Some('.') case 18 => Some('$')
    case 4 => Some(' ')
    case _ => None
  }

  /** What a receiver prints for a character of the figures table. */
  function Canonical(c: char): char {
    if c == '`' then '\'' else c
  }

  /** c is in the letters table under a code that decodes back to c. */
  predicate LetterDecodes(c: char) {
    match LettersCode(c)
    case None => false
    case Some(code) => IsCode(code) && LetterFor(CodeValue(code)) == Some(c)
  }

  /** c is in the figures table under a code that decodes back to c. */
  predicate FigureDecodes(c: char) {
    match FiguresCode(c)
    case None => false
    case Some(code) => IsCode(code) && FigureFor(CodeValue(code)) == Some(Canonical(c))
  }

  // Each group of table entries decodes back to its characters.

  lemma LettersAToE()
    ensures LetterDecodes('A') && LetterDecodes('B') && LetterDecodes('C') && LetterDecodes('D') && LetterDecodes('E')
  {
  }

  lemma LettersFToJ()
    ensures LetterDecodes('F') && LetterDecodes('G') && LetterDecodes('H') && LetterDecodes('I') && LetterDecodes('J')
  {
  }

  lemma LettersKToO()
    ensures LetterDecodes('K') && LetterDecodes('L') && LetterDecodes('M') && LetterDecodes('N') && LetterDecodes('O')
  {
  }

  lemma LettersPToT()
    ensures LetterDecodes('P') && LetterDecodes('Q') && LetterDecodes('R') && LetterDecodes('S') && LetterDecodes('T')
  {
  }

  lemma LettersUToY()
    ensures LetterDecodes('U') && LetterDecodes('V') && LetterDecodes('W') && LetterDecodes('X') && LetterDecodes('Y')
  {
  }

  lemma LettersZAndControls()
    ensures LetterDecodes('Z') && LetterDecodes(' ') && LetterDecodes('\n') && LetterDecodes('\r')
  {
  }

  lemma FiguresOneToFive()
    ensures FigureDecodes('1') && FigureDecodes('2') && FigureDecodes('3') && FigureDecodes('4') && FigureDecodes('5')
  {
  }

  lemma FiguresSixToZero()
    ensures FigureDecodes('6') && FigureDecodes('7') && FigureDecodes('8') && FigureDecodes('9') && FigureDecodes('0')
  {
  }

  lemma FiguresDashToHash()
    ensures FigureDecodes('-') && FigureDecodes('\'') && FigureDecodes('!') && FigureDecodes('&') && FigureDecodes('#')
  {
  }

  lemma FiguresParenToColon()
    ensures FigureDecodes('(') && FigureDecodes(')') && FigureDecodes('"') && FigureDecodes('/') && FigureDecodes(':')
  {
  }

  lemma FiguresSemicolonToDollar()
    ensures FigureDecodes(';') && FigureDecodes('?') && FigureDecodes(',') && FigureDecodes('.') && FigureDecodes('$')
  {
  }

  lemma FiguresSpaceAndBackquote()
    ensures FigureDecodes(' ') && FigureDecodes('`')
  {
  }

  /** Every letters entry holds a 5-bit code from which a receiver in letters
      shift recovers that very character. */
  lemma LettersDecodable()
    ensures forall c :: LettersCode(c).Some? ==> LetterDecodes(c)
  {
    LettersAToE();
    LettersFToJ();
    LettersKToO();
    LettersPToT();
    LettersUToY();
    LettersZAndControls();
    forall c | LettersCode(c).Some? ensures LetterDecodes(c) {
      match c
      case 'A' => case 'B' => case 'C' => case 'D' => case 'E' => case 'F' => case 'G' => case 'H' => case 'I' => case 'J' => case 'K' => case 'L' => case 'M' => case 'N' => case 'O' => case 'P' => case 'Q' => case 'R' => case 'S' => case 'T' => case 'U' => case 'V' => case 'W' => case 'X' => case 'Y' => case 'Z' => case ' ' => case '\n' => case '\r' =>
      case _ => assert false;
    }
  }

  /** Every figures entry holds a 5-bit code from which a receiver in figures
      shift recovers the character, the backquote coming back as an apostrophe. */
  lemma FiguresDecodable()
    ensures forall c :: FiguresCode(c).Some? ==> FigureDecodes(c)
  {
    FiguresOneToFive();
    FiguresSixToZero();
    FiguresDashToHash();
    FiguresParenToColon();
    FiguresSemicolonToDollar();
    FiguresSpaceAndBackquote();
    forall c | FiguresCode(c).Some? ensures FigureDecodes(c) {
      match c
      case '1' => case '2' => case '3' => case '4' => case '5' => case '6' => case '7' => case '8' => case '9' => case '0' => case '-' => case '\'' => case '!' => case '&' => case '#' => case '(' => case ')' => case '"' => case '/' => case ':' => case ';' => case '?' => case ',' => case '.' => case '$' => case ' ' => case '`' =>
      case _ => assert false;
    }
  }

  /** The two shift codes, and the two line codes in figures shift, are no
      character's code. */
  lemma ReservedCodes()
    ensures IsFrame(LTRS) && DataValue(LTRS) == LTRS_VALUE
    ensures IsFrame(FIGS) && DataValue(FIGS) == FIGS_VALUE
    ensures LetterFor(LTRS_VALUE).None? && LetterFor(FIGS_VALUE).None?
    ensures FigureFor(LTRS_VALUE).None? && FigureFor(FIGS_VALUE).None?
    ensures FigureFor(CR_VALUE).None? && FigureFor(LF_VALUE).None?
    ensures LetterFor(CR_VALUE) == Some('\r') && LetterFor(LF_VALUE) == Some('\n')
  {
  }

  /** Wrapping a code keeps its value as the frame's data. */
  lemma WrapData(code: string)
    requires IsCode(code)
    ensures IsFrame(Wrap(code)) && DataValue(Wrap(code)) == CodeValue(code)
  {
    assert Wrap(code)[2..7] == code;
  }

  /** Every entry of both tables, LTRS and FIGS included, is a frame: "10",
      five data bits, "1". */
  lemma TableFramesWellFormed()
    ensures forall m, c :: Lookup(m, c).Some? ==> IsFrame(Lookup(m, c).value)
    ensures IsFrame(LTRS) && IsFrame(FIGS)
  {
    LettersDecodable();
    FiguresDecodable();
    forall m, c | Lookup(m, c).Some? ensures IsFrame(Lookup(m, c).value) {
      WrapData(if m == Letters then LettersCode(c).value else FiguresCode(c).value);
    }
    ReservedCodes();
  }

  /** The letters codes are pairwise distinct and differ from the LTRS and
      FIGS codes. */
  lemma LettersCodesDistinct()
    ensures forall c, d :: LettersCode(c).Some? && LettersCode(d).Some? && c != d ==> LettersCode(c) != LettersCode(d)
    ensures forall c :: LettersCode(c).Some? ==> LettersCode(c).value != "11111" && LettersCode(c).value != "11011"
  {
    LettersDecodable();
    ReservedCodes();
    assert CodeValue("11111") == LTRS_VALUE && CodeValue("11011") == FIGS_VALUE;
  }

  /** The figures codes are pairwise distinct, except that the apostrophe and
      the backquote share 11010, and differ from the LTRS and FIGS codes. */
  lemma FiguresCodesDistinct()
    ensures forall c, d :: FiguresCode(c).Some? && FiguresCode(d).Some? && c != d && FiguresCode(c) == FiguresCode(d) ==>
      (c == '\'' && d == '`') || (c == '`' && d == '\'')
    ensures FiguresCode('\'') == FiguresCode('`') == Some("11010")
    ensures forall c :: FiguresCode(c).Some? ==> FiguresCode(c).value != "11111" && FiguresCode(c).value != "11011"
  {
    FiguresDecodable();
    ReservedCodes();
    assert CodeValue("11111") == LTRS_VALUE && CodeValue("11011") == FIGS_VALUE;
  }

  /** Every letters entry, read back as a frame, decodes to its character
      in letters shift, and never to a shift code. */
  lemma LetterFramesDecode()
    ensures forall c :: Lookup(Letters, c).Some? ==>
      var f := Lookup(Letters, c).value;
      IsFrame(f) && LetterFor(DataValue(f)) == Some(c) && Canonical(c) == c &&
      DataValue(f) != LTRS_VALUE && DataValue(f) != FIGS_VALUE
  {
    LettersDecodable();
    ReservedCodes();
    forall c | Lookup(Letters, c).Some?
      ensures IsFrame(Lookup(Letters, c).value) && DataValue(Lookup(Letters, c).value) == CodeValue(LettersCode(c).value)
    {
      WrapData(LettersCode(c).value);
    }
  }

  /** Every figures entry, read back as a frame, decodes to its character in
      figures shift (the backquote as an apostrophe), and never to a shift
      code or to the CR or LF code. */
  lemma FigureFramesDecode()
    ensures forall c :: Lookup(Figures, c).Some? ==>
      var f := Lookup(Figures, c).value;
      IsFrame(f) && FigureFor(DataValue(f)) == Some(Canonical(c)) &&
      DataValue(f) != LTRS_VALUE && DataValue(f) != FIGS_VALUE && DataValue(f) != CR_VALUE && DataValue(f) != LF_VALUE
  {
    FiguresDecodable();
    ReservedCodes();
    forall c | Lookup(Figures, c).Some?
      ensures IsFrame(Lookup(Figures, c).value) && DataValue(Lookup(Figures, c).value) == CodeValue(FiguresCode(c).value)
    {
      WrapData(FiguresCode(c).value);
    }
  }
}
