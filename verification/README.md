# far2m: verified models of its closed algorithms

far2m, a fork of far2l, is a console file manager with a Win32-compatibility layer (`WinPort`), an editor and
plugins. This project models the parts of it that are closed, deterministic algorithms or
protocols, and proves what they are for.

| file | what it models |
|---|---|
| `Calendar.dfy` | FILETIME ticks and Gregorian fields, against counting days one at a time |
| `Utf7.dfy`, `PowersOfTwo.dfy` | the UTF-7 encoder and decoder with their bit buffers (RFC 2152) |
| `Utf8.dfy`, `MalformedUtf8.dfy` | the UTF-8 encoder, decoder and length queries (RFC 3629, RFC 2781), and what they make of malformed sources |
| `Utf8Compose.dfy` | decoding UTF-8 with composition of characters |
| `CodePages.dfy`, `SingleCodes.dfy` | conversion to and from single-byte and double-byte code pages, and what it writes for one character |
| `Decomposition.dfy` | recursive decomposition of characters, and decoding a code page with it |
| `Collation.dfy`, `Weights.dfy` | comparison of strings by character weights |
| `Substring.dfy`, `IncrementalSearch.dfy` | Boyer-Moore search in both directions, and the search through a document |
| `Grids.dfy`, `ConsoleBuffer.dfy` | the cell buffer of the console screen |
| `Repaints.dfy`, `Terminal.dfy`, `SingleCharacters.dfy`, `WrappedText.dfy`, `Screen.dfy`, `ConsoleOutput.dfy` | deferred repaints, writing characters, scrolling, and the console object |
| `ShadowConsole.dfy` | the freeze/unfreeze protocol of the console output |
| `ConsoleInput.dfy`, `InputRuns.dfy`, `KeyPressRuns.dfy` | the queue of input events, for one thread and for any interleaving |
| `RegistryText.dfy`, `Registry.dfy` | registry values as text files |
| `Justify.dfy` | justification of a line |
| `Characters.dfy`, `OutputBuffers.dfy`, `Sequences.dfy`, `Wrappers.dfy` | shared parts |

Objects that the program updates in place are classes whose methods are proved against
functions on values; the promises of the program are lemmas about those functions, or
invariants that every method keeps. Protocols between threads are state machines whose steps
are single atomic accesses or critical sections, and their theorems are about every run.

## Conventions

- An empty destination array stands for a null buffer or a length of zero: the conversion
  then only counts.
- Tables (character types, collation elements, code pages, composition, decomposition,
  character classes, upper-casing) are parameters. Only these facts about them are used: a
  decomposition has 1 to 4 characters and its table has no cycles; tab is neither a prefix nor
  a suffix character; codes of a single-byte page are below 256. Where a result needs more, its
  contract says so.
- Disjoint bit fields joined by "or" are written as sums, shifts by a fixed number of bits as
  products and quotients. Where the program relies on wrap-around (the DWORD bit buffers of
  UTF-7, the 16-bit fields of SYSTEMTIME, the int and the 64 bits of a day and its ticks, the
  unsigned difference in `ScrollOutputOnOverflow`, the USHORT of a scroll region), the model
  reduces explicitly.
- In UTF-7, UTF-8 and the code pages a wide character is a 16-bit unit, as the routines
  themselves assume.

## What turned out false, and exactly when it holds

- The validator takes 29 February in common years (`Calendar.AcceptedDates`); the date then
  means 1 March. From March 58795 on, the product for the year wraps around. Reading the fields
  back gives the same date and time exactly for real dates before that
  (`Calendar.FieldsRoundTripExactlyWhen`).
- Without SORT_STRINGSORT the comparison of strings is not an order unless hyphen and apostrophe
  weigh the same and nothing is weightless (`Collation.TransitiveExactlyWhen`,
  `Weights.PlainSortIsPreorderExactlyWhen`).
- The plain UTF-8 decoder can refuse a buffer of the size its own length query gives
  (`Utf8.RoomNeeded`, `Utf8.CountedRoomIsNotEnough`).
- The length query for double-byte code pages ignores WC_NO_BEST_FIT_CHARS on its short path
  (`CodePages.ShortPathIsExactExactlyWhen`, `CodePages.ShortPathMiscounts`).
- A wrapping search can report nothing although there is a match
  (`IncrementalSearch.WrapFailsExactlyWhen`, `IncrementalSearch.WrapMissesMatch`).
- Adding an empty rectangle to the deferred repaints can lose what is already there
  (`Repaints.MergeIsExactWhen`, `Repaints.UndoesExactlyWhen`), and a scroll that is clipped away
  does it (`Screen.ScrollDefersSafelyExactlyWhen`, `ConsoleOutput.FinishLeavesBackendWrong`).
- Without wrapping at the end of the line a tab behind the last tab stop never ends on a width that
  is no multiple of 8 (`Terminal.EndsExactlyWhen`, `Terminal.AllEndExactlyWhen`).
- Two threads that freeze the output can delete a shadow console in use
  (`ShadowConsole.SafeExactlyForOneFreezer`).
- With other threads at work, CheckForKeyPress can put an event back behind one that came later. The
  queue stays in order of arrival exactly when nothing is pending at the moment when events are put
  back (`KeyPressRuns.OrderIsKeptExactlyWhen`, `KeyPressRuns.KeptCanFallBehind`).
- A registry value whose name holds a line feed is not read back in general
  (`Registry.NamesAreOneLine`).

## Model

| member | source | states |
|---|---|---|
| Calendar.SystemTimeToFileTime | WinPort/src/APITime.cpp:107-151 | fields are converted exactly when the validator takes them; the two 32-bit halves join up to the ticks exactly when the product for the year fits an int, for all years that a WORD holds |
| Calendar.AcceptedDates | WinPort/src/APITime.cpp:113-120 | the validator takes every Gregorian date and time from 1601 on, 29 February of any year, and nothing else |
| Calendar.ClosedFormCountsDays | WinPort/src/APITime.cpp:128-139 | the closed formula with its magic constants is the number of days since 1601-01-01, counted by the lengths of years and months |
| Calendar.PhantomLeapDay | WinPort/src/APITime.cpp:119-139 | 29 February of a common year gets the day number of 1 March |
| Calendar.TicksFit | WinPort/src/APITime.cpp:135-147 | up to the year 30827 no intermediate value overflows an int or a LONGLONG |
| Calendar.QuadPartExactlyWhen | WinPort/src/APITime.cpp:135-150 | the 64 bits, read without a sign, are the ticks of the date exactly up to February 58795; with wrap-around they are other ticks from then on |
| Calendar.CountOfDateAfter | WinPort/src/APITime.cpp:136-139 | stepping n times to the next calendar day from 1601-01-01 gives the date whose day count is n |
| Calendar.DateOfDayIsDateAfter | WinPort/src/APITime.cpp:315-334 | the inverse formula finds the date reached by stepping n days, for every n |
| Calendar.DateAfterIsOnto | WinPort/src/APITime.cpp:315-334 | every valid date is reached by stepping as many days as its count says |
| Calendar.WeekdayFormula | WinPort/src/APITime.cpp:312-313 | the day of the week is the one reached by stepping from a Monday |
| Calendar.FieldsOfTicksAreTheDate | WinPort/src/APITime.cpp:283-336 | every tick count gives the date, weekday and time of day it stands for, and nothing is lost in the 16-bit fields |
| Calendar.TicksRoundTrip | WinPort/src/APITime.cpp:283-336 | for all 64-bit tick counts, converting to fields gives fields that the validator takes and whose ticks are the given ones rounded down to a millisecond |
| Calendar.FieldsRoundTripExactlyWhen | WinPort/src/APITime.cpp:107-151 | fields to ticks to fields gives the same date and time exactly for real dates whose product for the year fits an int; up to there it gives the date the fields stand for, with the right weekday |
| Calendar.EarlierHasFewerTicks | WinPort/src/APITime.cpp:142-147 | ticks grow strictly with date and time |
| Calendar.ComparisonIsDateOrder | WinPort/src/APITime.cpp:257-274 | CompareFileTime, on the converted halves, orders real dates as the calendar does |
| Calendar.NullIsFirst | WinPort/src/APITime.cpp:257-274 | a null pointer compares below every time and equal to another one |
| Utf7.Wcstombs | WinPort/src/APIStringCodepages.cpp:605-670 | the encoder with its 32-bit shift buffer writes, or counts, exactly the encoding of the source; it fails exactly when the encoding does not fit, in spite of the early check before a padded sextet, and then the buffer holds what `EncodeInto` says and is untouched behind |
| Utf7.EncodeIntoIsLongest | WinPort/src/APIStringCodepages.cpp:605-670 | a buffer that is too small is filled with the beginning of the encoding, up to its end or one byte short of it where a padded sextet and its '-' would be torn apart |
| Utf7.DirectlyEncoded | WinPort/src/APIStringCodepages.cpp:552-600 | letters, digits, white space and the listed marks are encoded as themselves |
| Utf7.PlusIsEscaped | WinPort/src/APIStringCodepages.cpp:613-622 | a plus sign is encoded as '+-' |
| Utf7.NeverDirect | WinPort/src/APIStringCodepages.cpp:552-600 | backslash, tilde, the other marks, control characters and everything above ASCII are not |
| Utf7.EncodedInOneRun | WinPort/src/APIStringCodepages.cpp:630-664 | neighbours that are not encoded directly share one run |
| Utf7.Mbstowcs | WinPort/src/APIStringCodepages.cpp:351-442 | the decoder with its shift buffer, including bits left over from an ended run, gives exactly the decoded units, or fails exactly when they do not fit and then has filled the buffer with the first of them |
| Utf7.Base64Inverse | WinPort/src/APIStringCodepages.cpp:353-363 | the decoding table inverts the encoding alphabet |
| Utf7.Base64Alphabet | WinPort/src/APIStringCodepages.cpp:607-608 | the alphabet is that of RFC 2045 |
| Utf7.SextetsAreTheBits | WinPort/src/APIStringCodepages.cpp:631-660 | the sextets of a run, read as a number, are its units read as a number, shifted by less than one sextet of padding |
| Utf7.SextetCount | WinPort/src/APIStringCodepages.cpp:637-660 | a run of n units takes the least number of sextets that hold its bits |
| Utf7.OneSextet | WinPort/src/APIStringCodepages.cpp:417-426 | handing one sextet over keeps encoder and decoder in step: the bits both hold together are whole units, none lost or changed |
| Utf7.RunRoundTrip | WinPort/src/APIStringCodepages.cpp:388-430 | from any point where the two bit buffers are in step, and whatever follows the run, decoding gives the pending units and the rest of them and then goes on with the padding bits |
| Utf7.OtherEndsRun | WinPort/src/APIStringCodepages.cpp:408-415 | from any point inside a run, a character below 0x80 outside base64 other than '-' ends it and is decoded as itself |
| Utf7.MinusEndsRun | WinPort/src/APIStringCodepages.cpp:391-398 | a '-' ends it and is dropped, and unfinished bits with it |
| Utf7.HighByteEndsRun | WinPort/src/APIStringCodepages.cpp:399-405 | a byte from 0x80 on ends it and is decoded as itself, and the unfinished bits are kept |
| Utf7.RunClosedByOther | WinPort/src/APIStringCodepages.cpp:408-415 | a run of any units that such a character closes decodes to the units, the character, and what follows |
| Utf7.RunClosedByHighByte | WinPort/src/APIStringCodepages.cpp:399-405 | the same for a byte from 0x80 on, but what follows starts with the padding bits of the run |
| Utf7.RunClosedByEnd | WinPort/src/APIStringCodepages.cpp:430 | a run that the end of the source closes decodes to its units |
| Utf7.OutsideRun | WinPort/src/APIStringCodepages.cpp:371-438 | outside a run, '+-' is a plus sign, every other byte but '+' is itself, and a '+' at the end is nothing |
| Utf7.RoundTrip | WinPort/src/APIStringCodepages.cpp:605-670 | decoding the encoding of any sequence of 16-bit units gives it back |
| Utf7.EncodedLength | WinPort/src/APIStringCodepages.cpp:821-825 | the encoding never takes more than 5 bytes for a unit, the advertised MaxCharSize |
| Utf8.Wcstombs | WinPort/wineguts/utf8.c:101-161 | the encoder writes the shortest form of every scalar value, drops or refuses unpaired surrogates, and reports overflow before an invalid character behind it; after a failure the buffer holds what `EncodeInto` says and is untouched behind |
| Utf8.EncodeIntoIsLongest | WinPort/wineguts/utf8.c:101-161 | what a failed conversion leaves in the buffer is the encoding of the longest part of the source that fits, in whole characters |
| Utf8.LengthWcs | WinPort/wineguts/utf8.c:64-97 | the dry run counts exactly what the encoder would write, or refuses the same sources |
| Utf8.DecodeUtf8Char | WinPort/wineguts/utf8.c:164-189 | the fall-through switch reads the bytes of a sequence one by one and stops behind the last valid one |
| Utf8.DecodesShortestForms | WinPort/wineguts/utf8.c:164-189 | every complete shortest-form sequence is decoded to its value |
| Utf8.DecodesNothingElse | WinPort/wineguts/utf8.c:164-189 | a value comes only from a complete sequence that is its shortest form |
| Utf8.LengthMbs | WinPort/wineguts/utf8.c:280-303 | the dry run counts the units of the decoding, or refuses an invalid source under MB_ERR_INVALID_CHARS |
| Utf8.Mbstowcs | WinPort/wineguts/utf8.c:307-341 | the decoder into a limited buffer gives the decoding, or stops at a full buffer or an invalid character, whichever comes first, with what was decoded until then in the buffer and the rest of it untouched |
| Utf8.RoomNeeded | WinPort/wineguts/utf8.c:317-340 | without the strict flag the counted room suffices exactly when the source does not end in bytes to be ignored; otherwise one more unit does |
| Utf8.StrictRoomNeeded | WinPort/wineguts/utf8.c:317-340 | with the strict flag the counted room suffices for a valid source, and an invalid character is reported exactly when there is room left |
| Utf8.CountedRoomIsNotEnough | WinPort/wineguts/utf8.c:317-339 | a source whose counted length is refused as a buffer size |
| Utf8.RoundTrip | WinPort/wineguts/utf8.c:101-161 | decoding what was encoded gives the source without its unpaired surrogates |
| Utf8.RoundTripExactly | WinPort/wineguts/utf8.c:51-161 | decoding the encoding is the identity exactly on well-formed UTF-16 |
| Utf8.EncodingIsWellFormed | WinPort/wineguts/utf8.c:101-161 | the encoder's output is well-formed by the syntax of RFC 3629, section 4, whatever the source |
| Utf8.SyntaxIsWhatDecodes | WinPort/wineguts/utf8.c:164-189 | the decoder yields a scalar value exactly where that syntax has a character |
| Utf8.ReverseRoundTripExactly | WinPort/wineguts/utf8.c:307-341 | encoding what was decoded gives the bytes back exactly when they are well-formed UTF-8 |
| MalformedUtf8.LoneSurrogate | WinPort/wineguts/utf8.c:51-62 | a surrogate without its partner is dropped alone, or refused under the strict flag |
| MalformedUtf8.SurrogatePair | WinPort/wineguts/utf8.c:51-62 | a pair is encoded as the value of its twenty bits |
| MalformedUtf8.NoLeadByte | WinPort/wineguts/utf8.c:164-189 | a byte that starts no character is dropped alone |
| MalformedUtf8.SourceTooShort | WinPort/wineguts/utf8.c:164-170 | a lead byte whose sequence would reach past the end is dropped alone |
| MalformedUtf8.BrokenOff | WinPort/wineguts/utf8.c:171-187 | a sequence that breaks off is dropped up to the first byte that does not continue it |
| MalformedUtf8.TooLong | WinPort/wineguts/utf8.c:164-189 | a three-byte form of a value below 0x800 is dropped as a whole |
| MalformedUtf8.OutOfRange | WinPort/wineguts/utf8.c:318-340 | a four-byte form of a value below 0x10000 or above 0x10FFFF is dropped as a whole |
| MalformedUtf8.SurrogateIsTaken | WinPort/wineguts/utf8.c:318-340 | a surrogate in three bytes is decoded to that unit |
| CodePages.WcstombsSlow | WinPort/wineguts/wctomb.c:344-410 | the loop with composition, best-fit check, default character and discarding gives exactly the chosen codes or fails exactly when they do not fit, and says whether the default character was used; after a failure the buffer holds what `EncodeInto` says and is untouched behind |
| CodePages.EncodeIntoIsLongest | WinPort/wineguts/wctomb.c:398-407 | that is the longest part of the codes that fits, with no half of a double-byte character |
| CodePages.GetLength | WinPort/wineguts/wctomb.c:270-317 | the length query counts those bytes and gives the same `used` |
| CodePages.MapUnrolled | WinPort/wineguts/wctomb.c:95-156 | the loop unrolled sixteen times with its fall-through remainder maps element by element, as far as the buffer reaches, and touches nothing behind |
| CodePages.WcstombsSbcs | WinPort/wineguts/wctomb.c:95-156 | the fast single-byte encoder converts all, or fills the buffer and reports overflow |
| CodePages.WcstombsDbcs | WinPort/wineguts/wctomb.c:320-341 | the fast double-byte encoder gives the mapped bytes, or fails exactly when they do not fit and leaves whole characters only |
| CodePages.FastFillsLikeSlow | WinPort/wineguts/wctomb.c:320-410 | without flags, the fast and the slow form leave the same bytes in a buffer of any size |
| CodePages.FastIsSlow | WinPort/wineguts/wctomb.c:344-410 | without flags and with no default character given, the slow conversion gives the bytes of the fast one |
| CodePages.ShortLength | WinPort/wineguts/wctomb.c:261-268 | the short path of the length query counts the mapped bytes |
| CodePages.ShortPathIsExactExactlyWhen | WinPort/wineguts/wctomb.c:261-268 | the short path is right for every source exactly when no replacement by the default character changes the number of bytes |
| CodePages.ShortPathMiscounts | WinPort/wineguts/wctomb.c:261-268 | a table and a string for which two bytes are counted and one is written |
| CodePages.NoFlagNoHarm | WinPort/wineguts/wctomb.c:227-241 | that is always so without WC_NO_BEST_FIT_CHARS |
| CodePages.Wcstombs | WinPort/wineguts/wctomb.c:414-437 | for every combination of flags, default character and `used`, the result is the length or the conversion of one and the same encoding, save on the short path |
| SingleCodes.KeptCharacter | WinPort/wineguts/wctomb.c:227-241 | a character that is not replaced is written as its code, high byte first |
| SingleCodes.GivenDefault | WinPort/wineguts/wctomb.c:244-249 | what is replaced is written as the default character given: one byte on a single-byte page, both on a double-byte page unless the second is zero |
| SingleCodes.TableDefault | WinPort/wineguts/wctomb.c:171-174 | with none given it is the table's |
| SingleCodes.ReplacedIsUsed | WinPort/wineguts/wctomb.c:391-397 | `used` is set exactly when it is replaced |
| SingleCodes.OneByOne | WinPort/wineguts/wctomb.c:356-407 | without composition, one more character adds what it is written as alone |
| SingleCodes.ComposedPair | WinPort/wineguts/wctomb.c:361-389 | what is written for two characters that compose, for every combination of flags |
| SingleCodes.SeparatePair | WinPort/wineguts/wctomb.c:361-397 | two that do not compose are written one by one |
| SingleCodes.LeadByte | WinPort/wineguts/mbtowc.c:195-218 | a lead byte takes the next byte along, unless that is zero or missing |
| CodePages.MbstowcsDbcs | WinPort/wineguts/mbtowc.c:195-218 | the double-byte decoder, and its length query, give exactly the decoded units, or fail exactly when they do not fit with the buffer filled |
| CodePages.MbstowcsSbcs | WinPort/wineguts/mbtowc.c:58-118 | the unrolled single-byte decoder gives the same as the general decoding |
| CodePages.LosslessWithoutDefault | WinPort/wineguts/wctomb.c:344-410 | with WC_NO_BEST_FIT_CHARS and any other flags, a conversion that did not use the default character decodes to its source, composed where a composition maps back |
| CodePages.UsesDefaultExactlyWhen | WinPort/wineguts/wctomb.c:376-397 | with WC_NO_BEST_FIT_CHARS and without WC_DEFAULTCHAR, `used` is set exactly when a character to be kept does not map back |
| CodePages.NothingComposed | WinPort/wineguts/wctomb.c:363-390 | without WC_COMPOSITECHECK what is to be kept is the source itself |
| Decomposition.Decompose | WinPort/wineguts/decompose.c:2218-2244 | the recursion gives the decomposition carried through to the end exactly when it fits, although it keeps only one place free for each part to come, and writes nothing outside |
| Decomposition.FullIsFinal | WinPort/wineguts/decompose.c:2218-2244 | nothing in the result can be decomposed any further |
| Decomposition.EntryFirst | WinPort/wineguts/decompose.c:2218-2244 | replacing any character of a string by its entry first makes no difference, so there is one full decomposition |
| Decomposition.NoEntryStays | WinPort/wineguts/decompose.c:2218-2244 | a character without an entry stays |
| Decomposition.MbstowcsDecompose | WinPort/wineguts/mbtowc.c:222-265 | gives the decompositions of all decoded characters, or fails exactly when they do not fit, with what `FullInto` says in front; the length query counts the same |
| Decomposition.FullIntoIsLongest | WinPort/wineguts/mbtowc.c:222-265 | that is as many whole decompositions as there is room for |
| Utf8Compose.LengthCompose | WinPort/wineguts/utf8.c:192-228 | the length query counts the units of the composed decoding, or refuses an invalid source |
| Utf8Compose.MbstowcsCompose | WinPort/wineguts/utf8.c:232-277 | decoding that composes in the buffer, over units already written, gives the composed decoding, and fails exactly when it does not fit, with what was composed until then in the buffer and the rest of it untouched |
| Utf8Compose.PairComposes | WinPort/wineguts/utf8.c:251-272 | a base and a character from 0x80 on behind it, both below U+10000, with a composition give that one unit; any other two give both |
| Utf8Compose.ComposesAgain | WinPort/wineguts/utf8.c:251-272 | a composed unit composes with the next character, too |
| Utf8Compose.AppendKeepsMeaning | WinPort/wineguts/utf8.c:251-272 | composing one more character into the output keeps its decomposition |
| Utf8Compose.ComposingKeepsMeaning | WinPort/wineguts/utf8.c:232-277 | decomposed, the composed decoding is the plain decoding decomposed; it is never longer, and the same sources are refused |
| Collation.CompareWeights | WinPort/wineguts/sortkey.c:215-311 | the comparison over string pointers and half-read decompositions terminates for all flags and is the comparison of the two streams of decomposed characters |
| Collation.IncStrPos | WinPort/wineguts/sortkey.c:204-213 | moves on by one character of the stream |
| Collation.SkipWeightless | WinPort/wineguts/sortkey.c:284-309 | the tail loops stop exactly where something has weight |
| Collation.CompareIsAntisymmetric | WinPort/wineguts/sortkey.c:215-311 | swapping the strings negates the result, for all flags |
| Collation.CompareWithItself | WinPort/wineguts/sortkey.c:215-311 | a string equals itself, for all flags |
| Collation.StringSortIsLexicographic | WinPort/wineguts/sortkey.c:275-282 | with SORT_STRINGSORT and without NORM_IGNORESYMBOLS it is the lexicographic comparison of the weights with the zeros removed |
| Collation.LexicographicIsTotalOrder | WinPort/wineguts/sortkey.c:275-282 | that comparison is a total order on sequences of weights |
| Collation.FirstDifferenceDecides | WinPort/wineguts/sortkey.c:275-278 | with SORT_STRINGSORT, strings that share a front are in the order of the weights of the first two characters that differ |
| Collation.ComparedUpToNul | WinPort/wineguts/sortkey.c:228-233 | with NORM_STOP_ON_NULL nothing behind the first NUL counts |
| Collation.EverythingCounts | WinPort/wineguts/sortkey.c:226-312 | without it every character adds its decomposition, NULs like any other |
| Collation.CompareIsByKey | WinPort/wineguts/sortkey.c:238-273 | when nothing is weightless and the passed-over characters form one class, the comparison is by the others, then by the number of passed-over characters at the end |
| Collation.HyphensBreakTheOrder | WinPort/wineguts/sortkey.c:258-273 | without either flag and with different weights of hyphen and apostrophe, the strings "-A" and "'A" both equal "A" and differ from each other |
| Collation.WeightlessBreaksTheOrder | WinPort/wineguts/sortkey.c:284-309 | the string of a weightless character equals the empty one and that of a passed-over character with weight, which is greater than the empty one |
| Collation.AtomsAreTheirStream | WinPort/wineguts/sortkey.c:235-236 | a string of characters that decompose into themselves is compared character by character |
| Collation.TransitiveExactlyWhen | WinPort/wineguts/sortkey.c:215-311 | for every combination of flags, the exact condition on the table under which the comparison of strings is transitive |
| Weights.WeightFields | WinPort/wineguts/sortkey.c:173-202 | class, case, diacritic and unicode weight do not run into each other, and only the dot can be weightless |
| Weights.ClassDecides | WinPort/wineguts/sortkey.c:184-199 | the dot sorts before punctuation, that before blanks and controls, those before digits, and letters last; within a class upper case comes first |
| Weights.KindsInOrder | WinPort/wineguts/sortkey.c:185-200 | the dot, punctuation, white space and control characters, digits, and all others, in this order |
| Weights.DiacriticThenUnicodeWeight | WinPort/wineguts/sortkey.c:173-184 | between characters of the same type a smaller diacritic byte decides when it counts, and then the high half of the element; a missing element is the character itself |
| Weights.CaseCountsUnlessIgnored | WinPort/wineguts/sortkey.c:196-198 | of two characters that differ in case only, upper case is first, or they weigh the same when case is ignored |
| Weights.CompareString | WinPort/wineguts/sortkey.c:313-323 | wine_compare_string compares by these weights |
| Weights.FirstLetterDecides | WinPort/wineguts/sortkey.c:313-322 | strings that differ in a letter first are in the order of the elements of the letters |
| Weights.CaseIgnored | WinPort/wineguts/sortkey.c:317-320 | strings that differ in the case of one letter are equal exactly when case is ignored |
| Weights.SymbolsIgnored | WinPort/wineguts/sortkey.c:238-253 | with NORM_IGNORESYMBOLS punctuation and white space are passed over |
| Weights.OthersAreNotIgnored | WinPort/wineguts/sortkey.c:238-278 | anything else is compared |
| Weights.StringSortIsPreorder | WinPort/wineguts/sortkey.c:313-323 | for all tables and strings, SORT_STRINGSORT without NORM_IGNORESYMBOLS is reflexive, antisymmetric in sign and transitive |
| Weights.PlainSortIsPreorderExactlyWhen | WinPort/wineguts/sortkey.c:313-323 | without the two flags the comparison of strings is transitive when hyphen and apostrophe weigh the same and the dot has weight, for all decompositions; where hyphen, apostrophe, dot and "A" decompose into themselves, only then |
| Substring.Searcher.SetSubstringPatternL | incsrch/loc.c:125-132 | every entry of the skip table, shared by all characters equal in 16 bits, is a safe distance for the search to the right |
| Substring.Searcher.SetSubstringPatternR | incsrch/loc.c:134-141 | the same for the search to the left |
| Substring.Searcher.SubStringL | incsrch/loc.c:143-185 | terminates and gives the leftmost match of the folded text, or none exactly when there is none |
| Substring.Searcher.SubStringR | incsrch/loc.c:187-228 | the same for the rightmost match, for a pattern that is not empty |
| Substring.NoMatchBeforeStepL | incsrch/loc.c:170-180 | the step after a mismatch passes over no match |
| Substring.NoMatchBeforeStepR | incsrch/loc.c:214-223 | the same leftwards |
| IncrementalSearch.Editor.FindString | incsrch/search.c:108-248 | without wrapping it succeeds exactly when there is a match from the start position on in the direction of the search, and selects the nearest; with wrapping, the first match of the first line that has one, in the order of the visits; when the user stops it, nothing is selected and no failure is noted. As seen from the selection, or the cursor if there is none: with "next" the nearest occurrence strictly behind it, or in front of it, and otherwise the nearest from it on |
| IncrementalSearch.StartIsFound | incsrch/search.c:146-154 | without "next" an occurrence at the start is the answer |
| IncrementalSearch.StartIsLeft | incsrch/search.c:146-154 | with "next" and no wrapping the answer is strictly behind the start, or in front of it, and there is none exactly when no occurrence is |
| IncrementalSearch.Editor.NextLine | incsrch/search.c:184-198 | the order in which lines are visited, around the end of the document |
| IncrementalSearch.NearestIsUnique | incsrch/search.c:108-248 | the plain search has one answer |
| IncrementalSearch.WrapResultIsUnique | incsrch/search.c:173-232 | the wrapping search has one answer, too |
| IncrementalSearch.ResultIsUnique | incsrch/search.c:108-248 | with or without wrapping, what FindString promises leaves one answer |
| IncrementalSearch.WrapFailsExactlyWhen | incsrch/search.c:227-232 | with wrapping, the answer on a document with matches is none exactly when all are in the cursor's line, none ahead, and the first of that line ends at the cursor |
| IncrementalSearch.WrapMissesMatch | incsrch/search.c:227-228 | a document with a genuine match on which the answer is none |
| Grids.RowCount | WinPort/src/ConsoleBuffer.cpp:30-34 | the number of rows is the number of cells divided by the width |
| ConsoleBuffer.CopiesExactlyWhen | WinPort/src/ConsoleBuffer.cpp:44-79 | there is something to copy exactly when the data position is good, the rectangle is not empty and starts on the screen |
| ConsoleBuffer.CopiesCommonPart | WinPort/src/ConsoleBuffer.cpp:44-79 | the clipped rectangle is what rectangle, screen and data have in common |
| ConsoleBuffer.Buffer.InspectCopyArea | WinPort/src/ConsoleBuffer.cpp:44-79 | clips the rectangle to screen and data, and tells whether there is something to copy |
| ConsoleBuffer.CopyRows | WinPort/src/ConsoleBuffer.cpp:86-93 | copying rows by moving two pointers through flat buffers replaces exactly one rectangle by another |
| ConsoleBuffer.Buffer.Read | WinPort/src/ConsoleBuffer.cpp:81-93 | the block read fills the data with the clipped rectangle and leaves the rest of the data and the screen alone |
| ConsoleBuffer.Buffer.Write | WinPort/src/ConsoleBuffer.cpp:100-112 | the block write replaces the clipped rectangle and nothing else |
| ConsoleBuffer.WrittenAt | WinPort/src/ConsoleBuffer.cpp:100-112 | what each cell holds after a block write, in terms of the rectangle that was asked for |
| ConsoleBuffer.Buffer.ReadCell | WinPort/src/ConsoleBuffer.cpp:114-128 | gives a cell exactly when its position is on the screen |
| ConsoleBuffer.Buffer.WriteCell | WinPort/src/ConsoleBuffer.cpp:130-148 | replaces one cell and tells a missing one, an unchanged one and a modified one apart |
| ConsoleBuffer.Buffer.SetSize | WinPort/src/ConsoleBuffer.cpp:8-28 | cells stay where they were and new ones are blank |
| Repaints.MergeIsExactWhen | WinPort/src/ConsoleOutput.cpp:38-60 | a merged area never covers more than the two; it covers no less exactly when the stretches join up |
| Repaints.NonEmptyAreasJoin | WinPort/src/ConsoleOutput.cpp:38-60 | areas that are not empty always do, and stay so |
| Repaints.ListGrowsExactlyWhen | WinPort/src/ConsoleOutput.cpp:38-60 | an area makes the list longer unless it continues the last one to the right or downward, or is the last one again |
| Repaints.EmptyAreaLosesCoverage | WinPort/src/ConsoleOutput.cpp:43-47 | an empty area that undoes the last one |
| Repaints.UndoesExactlyWhen | WinPort/src/ConsoleOutput.cpp:38-60 | an area can take a cell of the screen from some area on the screen deferred before it exactly when it ends more than one column, or row, before it starts, behind a column or row of the screen |
| Repaints.AddKeepsCoverage | WinPort/src/ConsoleOutput.cpp:38-60 | then the list covers the old coverage and the new area, no more and no less |
| Repaints.AddKeepsScreenCoverage | WinPort/src/ConsoleOutput.cpp:38-60 | on the screen this already holds for areas that leave no gap of a column or row or reach up to the right or bottom edge, and any number of such additions keeps it so |
| Repaints.AffectedBounds | WinPort/src/ConsoleOutput.cpp:338-352 | a bounding area that starts at the impossible NO_AREA covers everything it has been extended by |
| Repaints.AffectedIsLeast | WinPort/src/ConsoleOutput.cpp:338-352 | and nothing else: it is the least area that holds both |
| Terminal.ScrollMovesRegionOnly | WinPort/src/ConsoleOutput.cpp:355-402 | an overflow moves the rows of the scroll region up by one, blanks its last row and leaves the other rows; a region of one row stays |
| Terminal.EndsExactlyWhen | WinPort/src/ConsoleOutput.cpp:490-540 | for every string and every state: the loop ends, with the result that `Typed` says, exactly when no tab of the string is met behind the last tab stop of a row that is not left |
| Terminal.AllEndExactlyWhen | WinPort/src/ConsoleOutput.cpp:490-540 | all strings end from every position exactly when lines wrap, control characters are not processed, or the width is a multiple of 8 |
| Terminal.TabStaysStuck | WinPort/src/ConsoleOutput.cpp:509-535 | a tab met there is not done with, and met there again in the next turn |
| Terminal.TabMovesOn | WinPort/src/ConsoleOutput.cpp:500-535 | every turn of a tab gets nearer to a tab stop, also across the end of a line |
| Terminal.TypedInParts | WinPort/src/ConsoleOutput.cpp:477-569 | writing a string in two parts gives the same screen and cursor as writing it at once, and ends exactly when both parts do |
| Terminal.CursorStays | WinPort/src/ConsoleOutput.cpp:500-529 | after any string the column is in 0 to width + 1 and the row has not passed the scroll edge |
| Terminal.RestStays | WinPort/src/ConsoleOutput.cpp:477-540 | with the cursor in the scroll region, no string changes a row outside |
| Terminal.PlainTextAppears | WinPort/src/ConsoleOutput.cpp:436-475 | plain text that fits in a row appears there with the current attributes, and changes nothing else |
| WrappedText.WrappedTextAppears | WinPort/src/ConsoleOutput.cpp:500-529 | with wrapping, plain text of any length appears at consecutive places in row-major order, moved up by the number of overflows; the old rows of the region move up, blank ones follow, the rest of the screen stays, and the cursor is behind the last character |
| WrappedText.SomeOverflow | WinPort/src/ConsoleOutput.cpp:503-508 | for every text there is such a number of overflows |
| Terminal.FillAppears | WinPort/src/ConsoleOutput.cpp:448-475 | a fill that fits in a row changes the characters, or the attributes, of its cells and nothing else |
| Terminal.TabBlanksToStop | WinPort/src/ConsoleOutput.cpp:433-434 | a tab blanks the cells up to the next tab stop and goes there |
| Terminal.LineEndScrolls | WinPort/src/ConsoleOutput.cpp:517-526 | return and line feed at the scroll edge scroll the region up and leave the cursor in the first column |
| SingleCharacters.LineFeed | WinPort/src/ConsoleOutput.cpp:520-526 | a line feed goes down one row and stays in its column; at the scroll edge the rows move up instead |
| SingleCharacters.CarriageReturn | WinPort/src/ConsoleOutput.cpp:517-518 | a return goes to the first column |
| SingleCharacters.Backspace | WinPort/src/ConsoleOutput.cpp:513-516 | a backspace goes back one column and erases nothing |
| SingleCharacters.Bell | WinPort/src/ConsoleOutput.cpp:492-498 | a bell does nothing, behind the last column as well |
| SingleCharacters.ShownCharacter | WinPort/src/ConsoleOutput.cpp:436-470 | any other character, and every one where control characters are not processed, is shown at the cursor; a full-width one takes the next cell, too |
| SingleCharacters.PrefixCharacter | WinPort/src/ConsoleOutput.cpp:412-416 | a prefix is shown and the cursor stays |
| SingleCharacters.SuffixCharacter | WinPort/src/ConsoleOutput.cpp:418-432 | a suffix joins the character in the previous cell, and the cursor stays |
| SingleCharacters.SuffixJoinsCharacter | WinPort/src/ConsoleOutput.cpp:418-447 | a character and a suffix behind it end up in one cell |
| SingleCharacters.OffScreen | WinPort/src/ConsoleOutput.cpp:418-470 | off the screen nothing is written and the cursor moves all the same |
| SingleCharacters.ShownBehindLastColumn | WinPort/src/ConsoleOutput.cpp:500-511 | behind the last column a character goes to the first column of the next row, or over the last column without wrapping |
| SingleCharacters.FillBehindLastColumn | WinPort/src/ConsoleOutput.cpp:500-508 | a fill goes on in the next row whatever the mode |
| SingleCharacters.LineEndBehindFullRow | WinPort/src/ConsoleOutput.cpp:500-526 | return and line feed behind a full row leave no empty row |
| SingleCharacters.TabToEdge | WinPort/src/ConsoleOutput.cpp:433-534 | a tab with no tab stop left blanks the rest of the row |
| SingleCharacters.TabBehindLastColumn | WinPort/src/ConsoleOutput.cpp:500-534 | from there it goes on to the first tab stop of the next row |
| Screen.ClipIsIntersection | WinPort/src/ConsoleOutput.cpp:603-623 | ClipRect leaves the cells in both rectangles |
| Screen.TargetIsShiftedSource | WinPort/src/ConsoleOutput.cpp:642-669 | the target is the source shifted to the destination, as far as the clip rectangle reaches |
| Screen.CopiesAreScrolled | WinPort/src/ConsoleOutput.cpp:648-682 | reading, filling and writing: every target cell gets what was read of the source in the state before, also when the two overlap or the source is partly off the screen, and every other cell is filled or left alone |
| Screen.ScrolledIsMoved | WinPort/src/ConsoleOutput.cpp:648-682 | for a source on the screen that is a simultaneous move |
| Screen.ScrollWithin | WinPort/src/ConsoleOutput.cpp:684-688 | all that changes is in the areas reported |
| Screen.ScrollAreasAreHarmlessExactlyWhen | WinPort/src/ConsoleOutput.cpp:656-688 | the areas reported are harmless, which makes any sequence of them safe, exactly when the clip rectangle leaves no gap of a column or row to the target, and to the source if it is filled, or both reach up to the far edge |
| Screen.ScrollDefersSafelyExactlyWhen | WinPort/src/ConsoleOutput.cpp:656-688 | deferring the areas of a scroll loses no cell of the screen, whatever areas on the screen were deferred before, exactly when the target does not undo one, nor the filled source behind a target that adds nothing |
| Screen.CopiesAreScroll | WinPort/src/ConsoleOutput.cpp:379-400 | moving rows up and blanking the last one, as two block writes, is the scroll of the region |
| Screen.DeferKeepsTrack | WinPort/src/ConsoleOutput.cpp:38-67 | deferring harmless areas that contain every change keeps every wrongly shown cell covered |
| Screen.RefreshKeepsTrack | WinPort/src/ConsoleOutput.cpp:301-303 | telling the backend of such areas at once keeps it in agreement |
| ConsoleOutput.Console.AddRepaint | WinPort/src/ConsoleOutput.cpp:38-60 | merges into the last area of the list, or adds one |
| ConsoleOutput.Console.Report | WinPort/src/ConsoleOutput.cpp:295-303 | the end of every operation keeps the invariant: as long as all deferred areas were harmless, no cell that the backend shows wrongly is missing from them |
| ConsoleOutput.Console.RepaintsDeferStart | WinPort/src/ConsoleOutput.cpp:797-802 | counts one more deferral |
| ConsoleOutput.Console.RepaintsDeferFinish | WinPort/src/ConsoleOutput.cpp:804-824 | when the count gets to zero, or is forced to, the backend reads the deferred areas and nothing is left deferred; if all areas were harmless it then agrees with the screen in every cell |
| ConsoleOutput.FinishLeavesBackendWrong | WinPort/src/ConsoleOutput.cpp:804-824 | a run of a write, a scroll that is clipped away, and a finish that leaves the backend wrong |
| ConsoleOutput.Console.SetCursor | WinPort/src/ConsoleOutput.cpp:138-158 | moves the cursor, reports the cells of its old and new place, and keeps the invariant |
| ConsoleOutput.HalvesGoTogether | WinPort/src/ConsoleOutput.cpp:116-128 | both halves of a full-width character are reported, whichever of them the position is |
| ConsoleOutput.Console.WriteCell | WinPort/src/ConsoleOutput.cpp:312-336 | replaces one cell, says whether there is one, reports it if it changed, and keeps the invariant |
| ConsoleOutput.Console.Write | WinPort/src/ConsoleOutput.cpp:290-304 | the block write keeps the invariant, and its area is harmless whenever the rectangle asked for is not empty, on the screen or off it |
| ConsoleOutput.Console.SetSize | WinPort/src/ConsoleOutput.cpp:201-217 | resizes within limits, keeps the cursor on the screen, resets the scroll region, and leaves the backend in agreement |
| ConsoleOutput.Console.SetScrollRegion | WinPort/src/ConsoleOutput.cpp:701-710 | clamps the region; a region of the first row alone can get 65535 as its top, and the invariant still holds |
| ConsoleOutput.Console.Scroll | WinPort/src/ConsoleOutput.cpp:625-699 | the screen afterwards, for every source, and what is reported; for a source on the screen and a clipped target that is not negative it is the simultaneous move |
| ConsoleOutput.Console.ScrollOutputOnOverflow | WinPort/src/ConsoleOutput.cpp:355-402 | scrolls the region up and extends the bounding area by all that changed |
| ConsoleOutput.Console.ModifySequenceEntityAt | WinPort/src/ConsoleOutput.cpp:404-475 | writes one character, fill or attribute, joins a suffix to the previous cell, and extends the bounding area by all that changed |
| ConsoleOutput.Console.ModifySequenceAt | WinPort/src/ConsoleOutput.cpp:477-569 | for every string with which the loop ends: terminates, does what `Typed` says, counts all characters but the bells, reports the old and new place of the cursor and an area with all that changed, and keeps the invariant with the backend |
| ConsoleOutput.BellsAreCounted | WinPort/src/ConsoleOutput.cpp:492-536 | the bells are the BEL characters of a string where control characters are processed |
| ConsoleOutput.Console.WriteString | WinPort/src/ConsoleOutput.cpp:571-576 | the same at the cursor, which moves along |
| ShadowConsole.OneFreezerIsSafe | WinPort/src/APIConsole.cpp:69-99 | in every interleaving of one freezing thread with any number of users, no shadow is joined while a user holds it, none is joined twice or lost |
| ShadowConsole.CountIsExactInRuns | WinPort/src/APIConsole.cpp:30-52 | in every run the use count is the number of users between increment and decrement |
| ShadowConsole.DrainingOnlyShrinks | WinPort/src/APIConsole.cpp:87-94 | once the shadow is taken away nobody can choose it any more |
| ShadowConsole.TwoFreezersRun | WinPort/src/APIConsole.cpp:75-78 | a run of two freezing threads that joins a shadow in use |
| ShadowConsole.SafeExactlyForOneFreezer | WinPort/src/APIConsole.cpp:69-99 | with any user at all, every run is safe exactly for at most one freezing thread |
| ConsoleInput.Input.Enqueue | WinPort/src/ConsoleInput.cpp:300-327 | adds the events in order and notifies exactly when there are any |
| ConsoleInput.Input.Peek | WinPort/src/ConsoleInput.cpp:341-361 | shows the first events with callbacks taken out, changes nothing and invokes nothing |
| ConsoleInput.Input.Dequeue | WinPort/src/ConsoleInput.cpp:363-382 | removes the first events for a requestor that is admitted and invokes each callback among them once, in order |
| ConsoleInput.CallsOneMore | WinPort/src/ConsoleInput.cpp:363-382 | every callback among dequeued events is called, in order, and nothing else is |
| ConsoleInput.Input.Flush | WinPort/src/ConsoleInput.cpp:390-399 | removes all events for a requestor that is admitted |
| ConsoleInput.Input.RaiseRequestorPriority | WinPort/src/ConsoleInput.cpp:436-446 | the new priority is above all held ones and becomes the current one |
| ConsoleInput.Input.LowerRequestorPriority | WinPort/src/ConsoleInput.cpp:448-459 | gives back exactly that priority, and notifies exactly when events are pending |
| ConsoleInput.Input.JoinConsoleInput | WinPort/src/ConsoleInput.cpp:475-486 | adds the events of the other queue behind, and notifies exactly when there are any |
| ConsoleInput.Input.CheckForKeyPress | WinPort/src/APIConsole.cpp:326-363 | the whole queue is looked through: the result names the first listed key that went down, each callback is invoked once, and what the flags keep stays in order; with a raised priority nothing happens |
| KeyPressRuns.TakenIsChecked | WinPort/src/APIConsole.cpp:326-363 | whatever other threads do in between, the result, the callbacks invoked and what goes back are those of the events that were taken, in order |
| KeyPressRuns.OrderIsKeptExactlyWhen | WinPort/src/APIConsole.cpp:326-363 | in every run, with any additions, removals and priorities of the others in between, the queue is in order of arrival at all times exactly when nothing is put back or nothing is pending at the moment when it is |
| KeyPressRuns.ReturnIsInOrderExactlyWhen | WinPort/src/APIConsole.cpp:359-361 | the step that puts events back leaves the queue in order of arrival exactly when nothing is pending or nothing was kept |
| KeyPressRuns.KeptCanFallBehind | WinPort/src/APIConsole.cpp:359-361 | a run in which an event that was kept falls behind one that came later |
| ConsoleInput.CheckingAgainChangesNothing | WinPort/src/APIConsole.cpp:326-363 | a second look invokes nothing and keeps everything |
| ConsoleInput.EverythingKept | WinPort/src/APIConsole.cpp:345-361 | with all keep flags nothing is dropped |
| ConsoleInput.FirstPressDecides | WinPort/src/APIConsole.cpp:335-344 | the result is the first place in the list of the first listed key that goes down |
| ConsoleInput.NoPress | WinPort/src/APIConsole.cpp:335-344 | keys that go up, keys that are not listed and other events give no result |
| ConsoleInput.WhatStays | WinPort/src/APIConsole.cpp:345-357 | how often every kind of event stays, flag by flag |
| InputRuns.RunsAreSound | WinPort/src/ConsoleInput.cpp:300-486 | every state of every run keeps the stream in order, callbacks invoked once, priorities distinct and held, and no lost wake-up |
| InputRuns.StreamIsDelivered | WinPort/src/ConsoleInput.cpp:321-399 | in every run, what was dequeued followed by what is pending is what was enqueued, in order, minus what was flushed; with nothing in hand exactly the dequeued callbacks were invoked, each once |
| InputRuns.HolderExcludesLower | WinPort/src/ConsoleInput.cpp:363-446 | a raised priority is above all held ones, and while it is held no lower requestor removes anything |
| InputRuns.WaiterIsServed | WinPort/src/ConsoleInput.cpp:401-407 | whoever waits while events are pending and no higher priority is held is not asleep, and its next check lets it go |
| InputRuns.StepKeepsWaiters | WinPort/src/ConsoleInput.cpp:325-484 | every step that could make a wake condition true wakes everybody up |
| InputRuns.StepKeepsTokens | WinPort/src/ConsoleInput.cpp:436-459 | a priority that is given back is always there to be erased |
| RegistryText.RegEscape | WinPort/src/APIRegistry.cpp:225-247 | inserting in place gives the escaped form |
| RegistryText.RegUnescape | WinPort/src/APIRegistry.cpp:249-269 | erasing in place gives the unescaped form, also of malformed text |
| RegistryText.UnescapeOne | WinPort/src/APIRegistry.cpp:249-269 | what one character of any text stands for: unknown escapes for their letter, bare line ends and NULs for nothing |
| RegistryText.EscapeThenUnescape | WinPort/src/APIRegistry.cpp:225-269 | unescaping the escaped form of any bytes, with or without the line feed behind, gives them back |
| RegistryText.EscapedHasNoNul | WinPort/src/APIRegistry.cpp:225-247 | the escaped form has no NUL, at which reading would stop |
| RegistryText.EscapedLength | WinPort/src/APIRegistry.cpp:225-247 | it is at most three times as long |
| RegistryText.EscapeOneMore | WinPort/src/APIRegistry.cpp:225-247 | what one more character adds: itself, or its escape; a NUL in front of it ends its line |
| RegistryText.PrintThenScan | WinPort/src/APIRegistry.cpp:317-321 | scanning a printed hexadecimal number gives it back |
| RegistryText.BytesThroughNumber | WinPort/src/APIRegistry.cpp:447-458 | bytes read as a number and stored again are the same |
| RegistryText.LowestFirst | WinPort/src/APIRegistry.cpp:447-458 | numbers are stored lowest byte first |
| RegistryText.SerializeBinary | WinPort/src/APIRegistry.cpp:428-439 | lists the bytes, sixteen in a line |
| RegistryText.ListingOneMore | WinPort/src/APIRegistry.cpp:428-439 | one more byte adds two digits and a blank, in a new line after every sixteen bytes |
| RegistryText.ListThenParse | WinPort/src/APIRegistry.cpp:339-359 | reading a listing gives the bytes |
| RegistryText.PairsAreScanned | WinPort/src/APIRegistry.cpp:350-353 | what a pair of characters stands for, digits or not |
| Registry.Deserialize | WinPort/src/APIRegistry.cpp:361-426 | type, true size, status and the whole contents of the buffer for every stored text and every room; too little room is reported with the true size |
| Registry.DeliverBytes | WinPort/src/APIRegistry.cpp:339-359 | stores what fits, counts all, and reports too little room |
| Registry.DeliveredWhole | WinPort/src/APIRegistry.cpp:296-359 | a value that fits is delivered whole and in front, nothing is written behind the given room, and strings and numbers that do not fit leave the buffer alone |
| Registry.StringsAreTerminated | WinPort/src/APIRegistry.cpp:284-310 | a string with room for it is followed by its whole terminator, and otherwise by what was there |
| Registry.TerminatorOf | WinPort/src/APIRegistry.cpp:284-310 | four zero bytes for wide strings and one for the others |
| Registry.DeliveredInPart | WinPort/src/APIRegistry.cpp:323-359 | a number without a digit leaves the buffer alone, and of too many bytes the first ones are stored |
| Registry.RegSetValueEx | WinPort/src/APIRegistry.cpp:718-743 | writes name, type and value as lines |
| Registry.RegQueryValueEx | WinPort/src/APIRegistry.cpp:647-679 | reads name, type and value back and delivers the value |
| Registry.TypeThroughTip | WinPort/src/APIRegistry.cpp:370-423 | every type, named or numeric, is read back from what is written for it, and no number is taken for a name |
| Registry.TypeNames | WinPort/src/APIRegistry.cpp:447-499 | how the types are named |
| Registry.MultibyteTypeNames | WinPort/src/APIRegistry.cpp:483-487 | how the multibyte types are named |
| Registry.UnknownTypeIsBinary | WinPort/src/APIRegistry.cpp:418-423 | a name that is none and no number goes by REG_BINARY |
| Registry.ReadsBack | WinPort/src/APIRegistry.cpp:647-743 | under a name of one line, name, type, size and bytes of any value are read back |
| Registry.RoundTripsExactlyWhen | WinPort/src/APIRegistry.cpp:441-499 | with any buffer large enough the same type, size and bytes come back exactly when the size is one the type stores whole |
| Registry.NamesAreOneLine | WinPort/src/APIRegistry.cpp:662-664 | all such values come back under a name exactly when the name holds no line feed |
| Justify.JustifyString | align/src/Align.cpp:308-349 | counts gaps, trims, and widens in place within a buffer of the margin's size, or leaves a line without gaps alone |
| Justify.InsertSpaces | align/src/Align.cpp:338-341 | what is behind moves to the right and spaces fill the hole |
| Justify.AtGap | align/src/Align.cpp:329-341 | the loop widens gaps between words only, never the padding, and every shift stays inside the buffer |
| Justify.LineIsJustified | align/src/Align.cpp:308-349 | a line of several words is filled up to the margin exactly: same indent, same words, every gap wider by the same amount and the first ones by one more |
| Justify.OneWordIsLeftAlone | align/src/Align.cpp:315-318 | a blank line or a single word is not touched |
| Justify.EveryTextIsALine | align/src/Align.cpp:308-320 | every text is blank or an indent, words with gaps, and trailing spaces |

## Left out

- Files, directories, clipboard, handles, keyboard state, network plugins and all dialogs: system calls and user interface.
- The generated tables (collation, character types, code pages, composition): parameters here, so nothing is said about their contents.
- Local-time bias, system clocks and DOS dates of `APITime.cpp`: operating-system calls or flat bit fields.
- Calendar.SystemTimeToFileTime: takes the overflow of signed integers, which C++ leaves undefined, as wrap-around; it happens to the ticks from 30828 on and to the product for the year from March 58795 on.
- Utf8Compose.ComposingKeepsMeaning: takes from the composition table only that a composed character decomposes into what its parts do.
- Decomposition.MbstowcsDecompose: does not state what a buffer holds behind the whole decompositions after a failed conversion; parts of the next one are left there.
- CodePages.WcstombsSlow: stands for the slow single-byte loop as well, which differs only in never writing two bytes; the length queries are merged in the same way.
- CodePages.MbstowcsDbcs: does not model MB_ERR_INVALID_CHARS, which adds a check in front, and MB_USEGLYPHCHARS, which only chooses another table.
- Decomposition.Decompose: does not model the compatibility tables, which the conversions do not use.
- Weights.CompareString: wine_get_sortkey, which builds keys for a different order, is not part of this model.
- Collation.TransitiveExactlyWhen: assumes that decompositions are carried through to the end, as `Decomposition.FullIsFinal` proves of wine_decompose, that hyphen, apostrophe and "A" decompose into themselves and the first two have weight, and, under NORM_IGNORESYMBOLS without SORT_STRINGSORT, that these are punctuation.
- IncrementalSearch.Editor.FindString: the typed string is not empty, as in all calls; progress display and the editor's view position are not modelled.
- Substring.Searcher.SubStringR: with an empty pattern the program returns the start of the text for both directions.
- ConsoleOutput.Console: every operation tells the backend before the next one starts, and there always is a backend; titles, cursor shape, palettes, the scroll callback, direct line access and JoinConsoleOutput are not modelled.
- ConsoleOutput.Console.Scroll: coordinates that overflow 16 bits are outside its precondition; where the source is off the screen the target gets whatever was in the scratch buffer.
- ConsoleOutput.Console.SetSize: sizes above 16 bits, which the coordinates of the screen cannot address, are outside its precondition.
- ConsoleOutput.Console.ModifySequenceAt: takes exactly the strings with which the loop ends (`Terminal.EndsExactlyWhen`); rows near the 16-bit limit are not modelled.
- ShadowConsole.OneFreezerIsSafe: exceptions while forking a shadow are not modelled, and atomic accesses are sequentially consistent.
- KeyPressRuns.OrderIsKeptExactlyWhen: events that another thread puts back count as arriving then.
- ConsoleInput.Input.CheckForKeyPress: with other threads at work it need not end, so `KeyPressRuns` says what holds in every run, and not that it is over.
- InputRuns.WaiterIsServed: timeouts are spurious wake-ups, and scheduling of awake threads is up to the system.
- Registry.RegQueryValueEx: the file exists and the handle is good; conversion of names between wide and multibyte strings and the name buffer of RegEnumValue are not modelled; numbers of more digits than fit are reduced modulo the width.
- Justify.JustifyString: `ReformatBlock`, which splits paragraphs into lines first, is not part of this model.
