# pyrtty Baudot encoder, modelled in Dafny

pyrtty turns text into a radioteletype (RTTY) transmission. Its first stage,
`text_to_baudot`, maps each upper-cased character to a 5-bit Baudot code from
one of two tables, letters or figures. It wraps every code in a frame of
start bits and a stop bit. It sends a LTRS or FIGS shift frame whenever the
table changes. It inserts the frames of CR and LF after every 70 printable
characters in a row. The output is a string of `'1'` (mark) and `'0'`
(space) characters, which starts with 20 idle marks and a LTRS frame.

This project models that stage in Dafny 4.11:

- `baudot_code.dfy` (module `BaudotCode`). It holds the framing constants,
  the `__wrap` helper, the two code tables and the two shift frames. It also
  holds the receiving side of the tables: the value a frame carries and the
  character that value stands for in each shift.
- `encoder.dfy` (module `Encoder`). It holds a reference definition of the
  encoder, a left fold `Run` that applies `Step` to each upper-cased
  character. The loop of the source is modelled as the methods
  `TextToBaudot`, `EncodeCharacter` and `AppendLineBreak`. Each loop,
  including the inner loop over the two tables and the loop over `CRLF`, is
  proved equal to the fold.
- `receiver.dfy` (module `Receiver`). It holds a teleprinter receiver that
  reads 8-bit frames and follows the shift frames. It is a decoder, against
  which the encoder's output is shown to be decodable.
- `encoder_properties.dfy` (module `EncoderProperties`). It states what the
  encoder promises, using definitions of the text alone:
  - `Kept`: the characters found in a table;
  - `ModeChanges`: the table changes those characters need;
  - `Column`, `RunLength` and `FullLines`: where lines of 70 end;
  - `Printed`: what a receiver should print.

  It then proves the fold against them: output length, binary output, the
  preamble, the round trip through the receiver, shift frames exactly at
  table changes, dropped characters, and the automatic line break.

In the source (`pyrtty.py`), a frame is `START_BIT + code + STOP_BIT`, where
`START_BIT` is `MARK_CODE + SPACE_CODE`. A frame therefore has 8 bits,
`"10"`, five data bits, `"1"`. The output ends with the last frame; no
trailing stop bit is added. The text is not reflowed at word boundaries:
the only line handling is the automatic CR LF after 70 characters. The model
follows the code in all three points. A description that speaks of 7-bit
frames, a trailing stop bit or a word wrapper does not describe this
revision of the code.

## Model

| member | source | states |
|---|---|---|
| BaudotCode.FrameBits | pyrtty.py:27-33 | A frame has the 2 start bits, 5 code bits and 1 stop bit, 8 in all, and a wrapped symbol is 8 bits long exactly when the symbol is 5 characters long. |
| BaudotCode.Wrap | pyrtty.py:33 | The frame starts with `START_BIT`, holds the symbol unchanged, ends with `STOP_BIT`, and is a well-formed frame whenever the symbol is a 5-bit code. |
| BaudotCode.LettersCode | pyrtty.py:37-44 | The letters table: every code it holds is five binary digits. |
| BaudotCode.FiguresCode | pyrtty.py:45-52 | The figures table: every code it holds is five binary digits. |
| BaudotCode.Lookup | pyrtty.py:36-52 | `BAUDOT_CODE[m][c]` exists exactly when table m holds c, and then it is a well-formed frame. |
| BaudotCode.ShiftFrame | pyrtty.py:61-64 | The shift frame for letters carries code 31 (LTRS), the one for figures code 27 (FIGS), and each is a well-formed frame. |
| BaudotCode.TableFramesWellFormed | pyrtty.py:36-55 | Every entry of both tables, and LTRS and FIGS, is a frame: "10", five binary data bits, "1". |
| BaudotCode.LettersDecodable | pyrtty.py:37-44 | Every letters entry holds a 5-bit code that a receiver in letters shift turns back into that character. |
| BaudotCode.FiguresDecodable | pyrtty.py:45-52 | Every figures entry holds a 5-bit code that a receiver in figures shift turns back into that character, except that the backquote comes back as an apostrophe. |
| BaudotCode.ReservedCodes | pyrtty.py:53-54 | LTRS carries code 31 and FIGS code 27, and neither stands for a character in either shift. Codes 0 and 2 are CR and LF in letters shift and nothing in figures shift. |
| BaudotCode.WrapData | pyrtty.py:33 | Wrapping a 5-bit code gives a frame whose data value is the code's value. |
| BaudotCode.LettersCodesDistinct | pyrtty.py:37-44 | No two letters characters share a code, and no letters code is 11111 (LTRS) or 11011 (FIGS). |
| BaudotCode.FiguresCodesDistinct | pyrtty.py:45-52 | Two figures characters share a code only if they are the apostrophe and the backquote, which share 11010. No figures code is 11111 or 11011. |
| BaudotCode.LetterFramesDecode | pyrtty.py:37-44 | Every letters frame decodes in letters shift to its own character and not to a shift code. |
| BaudotCode.FigureFramesDecode | pyrtty.py:45-52 | Every figures frame decodes in figures shift to its character, with the backquote as an apostrophe. It never decodes to a shift code, CR or LF. |
| Encoder.Marks | pyrtty.py:66 | `MARK_CODE * n` is n characters long, every one a mark. |
| Encoder.UpperChar | pyrtty.py:70 | Upper-casing leaves no lower-case letter. A lower-case letter becomes the capital at the same place in the alphabet, and every other character is unchanged. |
| Encoder.UpperCharIdempotent | pyrtty.py:70 | Upper-casing one character twice is upper-casing it once. |
| Encoder.Upper | pyrtty.py:70 | The upper-cased text has the text's length, is upper-cased character by character, and holds no lower-case letter. |
| Encoder.UpperIdempotent | pyrtty.py:70 | Upper-casing an upper-cased text changes nothing. |
| Encoder.CaseInsensitive | pyrtty.py:70 | The encoding is case-insensitive: a text and its upper-cased form give the same bits. |
| Encoder.LowerCaseLetters | pyrtty.py:37-44 | Every lower-case ASCII letter upper-cases into the letters table. |
| Encoder.FindMode | pyrtty.py:71-72 | The table chosen for a character is letters exactly when the letters table holds it. It is figures exactly when only the figures table holds it. It is none exactly when neither does. |
| Encoder.Step | pyrtty.py:71-89 | One turn of the loop only appends to the output. A character found in no table changes nothing. Otherwise the mode becomes the character's table. |
| Encoder.Run | pyrtty.py:59-89 | The loop's state after any text: its line count is always below 70 and its output is never shorter than the preamble. |
| Encoder.Encoding | pyrtty.py:57-91 | The result of `text_to_baudot` is at least 28 bits long, the 20 marks and the LTRS frame. |
| Encoder.LineBreakFramesValue | pyrtty.py:85-86 | The automatic line break is the letters frame of CR (00000) followed by that of LF (00010). |
| Encoder.AppendLineBreak | pyrtty.py:85-86 | The loop over `CRLF` appends the letters frames of CR and LF to the output. |
| Encoder.EncodeCharacter | pyrtty.py:71-89 | The inner loop over `['letters', 'figures']`, with its shift, append, line count, CR LF and `break`, computes one step of the reference fold. |
| Encoder.TextToBaudot | pyrtty.py:57-91 | `text_to_baudot` returns exactly the reference encoding of the text. |
| Receiver.ShiftReceived | pyrtty.py:53-54 | A LTRS or FIGS frame only sets the receiver's shift and prints nothing. |
| Receiver.CharacterReceived | pyrtty.py:36-52 | A character's frame, read in its own table's shift, prints the character, with the backquote as an apostrophe. |
| Receiver.LineBreakReceived | pyrtty.py:84-86 | The two frames of an automatic line break print CR LF in either shift and leave the shift as it was. |
| EncoderProperties.StepCounts | pyrtty.py:79-84 | One turn counts a printable character into the line and resets the count at CR, at LF, and when the line reaches 70. |
| EncoderProperties.RunMode | pyrtty.py:59-76 | After any text, `current_mode` is the table of the last character found, or letters if no character was found. |
| EncoderProperties.RunColumn | pyrtty.py:68-87 | The line count after any text is the column of the kept characters, and it is always below 70. |
| EncoderProperties.ColumnIsRunLength | pyrtty.py:79-87 | The column is the number of characters since the last CR or LF, modulo 70. |
| EncoderProperties.RunLine | pyrtty.py:68-87 | The line count is the number of kept characters since the last CR or LF, modulo 70. Counting therefore starts over after every automatic line break. |
| EncoderProperties.FullLineMeaning | pyrtty.py:79-84 | A line is full after a character exactly when that character is not CR or LF and the run of characters since the last CR or LF reaches a multiple of 70. |
| EncoderProperties.RunBits | pyrtty.py:66-89 | The output after any text is the preamble followed by, for each kept character: a shift frame if its table differs from the previous one, its frame, and CR LF if it fills a line. |
| EncoderProperties.FramesForLength | pyrtty.py:73-87 | The frames after the preamble number the kept characters, plus the table changes, plus two per full line, at 8 bits each. |
| EncoderProperties.FramesForReceived | pyrtty.py:73-87 | A receiver in letters shift that reads the frames of the kept characters ends in the shift of the last character and prints each character, plus CR LF after each full line. |
| EncoderProperties.FramesForShifts | pyrtty.py:73-76 | The frames of the kept characters hold exactly one shift frame per table change. |
| EncoderProperties.PreambleShape | pyrtty.py:66 | The preamble `PREAMBLE` is 28 binary bits: 20 marks, then LTRS. |
| EncoderProperties.EncodingFrames | pyrtty.py:57-91 | The output is the preamble followed by the frames of the upper-cased characters found in a table. |
| EncoderProperties.EncodingLength | pyrtty.py:57-91 | The output has 20 + 8·(1 + mapped characters + table changes + 2·full lines) bits. |
| EncoderProperties.EncodingBinary | pyrtty.py:57-91 | The output holds only `'1'` and `'0'`. |
| EncoderProperties.EncodingStart | pyrtty.py:66 | Every output starts with 20 marks and then a LTRS frame, followed by the frames of the text. |
| EncoderProperties.RoundTrip | pyrtty.py:57-91 | A receiver, in whichever shift it powered on, reads the whole output. It prints the upper-cased text without the unmapped characters, with the backquote as an apostrophe and CR LF after each run of 70 printable characters. |
| EncoderProperties.EncodingShifts | pyrtty.py:66-76 | After the idle marks, the output holds exactly one shift frame for the opening LTRS and one per table change. |
| EncoderProperties.RunKept | pyrtty.py:70-89 | Running the loop over only the characters found in a table leaves the same state as running it over all of them. |
| EncoderProperties.UpperDrop | pyrtty.py:70-72 | Upper-casing the characters that upper-case into a table equals keeping the tabled characters of the upper-cased text. |
| EncoderProperties.DropAppend | pyrtty.py:70-72 | Dropping unmapped characters from a concatenation drops them from each part. |
| EncoderProperties.EncodingDrop | pyrtty.py:70-89 | Deleting every character that upper-cases into no table leaves the output identical. |
| EncoderProperties.UnmappedIgnored | pyrtty.py:70-89 | One character found in no table, inserted anywhere, leaves the output identical. |
| EncoderProperties.LettersOnly | pyrtty.py:73-76 | Characters from the letters table alone need no table change. |
| EncoderProperties.FiguresOnly | pyrtty.py:73-76 | Characters from the figures table alone need exactly one table change. |
| EncoderProperties.LettersKept | pyrtty.py:70-76 | For text of letters-table characters, the kept characters end in letters shift and need no table change. |
| EncoderProperties.LettersTextShifts | pyrtty.py:59-76 | For text whose characters are all in the letters table, the only shift frame in the output is the opening LTRS. |
| EncoderProperties.EmptyText | pyrtty.py:66-91 | The empty text gives exactly the preamble, 28 bits. |
| EncoderProperties.TwoLetters | pyrtty.py:38-77 | "AB" gives the preamble, then the frames of A and B with no shift frame between them. |
| EncoderProperties.RunPrefix | pyrtty.py:70-89 | The output for a prefix of the text is a prefix of the output for the whole text. |
| EncoderProperties.LeadingFigure | pyrtty.py:59-77 | Text that starts with a figures character sends FIGS and that character's frame straight after the preamble. |
| EncoderProperties.SpaceIsLetters | pyrtty.py:43-77 | Space is found in the letters table first, although the figures table holds it too. So in figures shift it is sent after a LTRS frame, and the mode becomes letters. |
| EncoderProperties.AutomaticLineBreak | pyrtty.py:79-87 | The 70th printable character of a line is followed by the CR and LF frames of the letters table. No shift frame is sent, even in figures shift. The mode stays the character's, and the count starts over. |

## Left out

- The AFSK tone synthesis (`generate_tone`, `baudot_to_afsk`), WAV writing, audio playback and the argument parsing in `main` are not modelled. They are floating-point signal processing and I/O.
- Encoder.UpperChar: models `str.upper()` for ASCII a–z only. Non-ASCII characters whose upper case is in a table (`'ı'` to `'I'`, `'ſ'` to `'S'`) or that upper-case to several characters (`'ß'` to `'SS'`, `'ﬁ'` to `'FI'`) are not modelled. For ASCII input the lookup does not depend on the full Unicode case mapping.
- Encoder.EncoderState: `chars_in_this_line` is kept only as its length, which is all the source reads of it.
- Receiver.CharFor: the receiver is a decoder for the encoder's output, not part of pyrtty. It reads the CR and LF codes as CR and LF in either shift, as ITA2 teleprinters do. The encoder sends its automatic line break in figures shift without a LTRS frame, and the figures table of the source lists no CR or LF.
- The receiver works on the bit string, not on audio, and has no notion of timing or noise.
- The unused `DEFAULT_*` constants and `DEFAULT_MESSAGE` (pyrtty.py:15-22) belong to the tone synthesis and the command line, so they are not modelled.
