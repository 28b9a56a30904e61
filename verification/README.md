# Verified model of the ODBC core

The repository is the backend-independent core of an ODBC driver. This project models five of its
pure-logic parts and proves what they are for:

1. **Escape translation** (`src/escape.rs`). A cursor scanner rewrites `{fn ...}`, `{d ...}`, `{t ...}`, `{ts ...}`,
   `{oj ...}` and `{escape ...}` in SQL text, leaving strings, quoted identifiers, comments and unknown braces alone.
   `Lexer` and `Escape` say what the result is; `Locality`, `EscapeLaws` and `EscapeDepth` prove the laws; `EscapeForms`
   puts statements together from their parts and says what each becomes; `EscapeScanner` has the loops and recursion,
   proved to compute the result within a linear amount of work.
2. **Value marshalling** (`src/column_value.rs`, and the literal type of `src/param_convert.rs` it leans on). `ChunkWriter`
   delivers character and binary values in parts, `Calendar` and `Datetime` are dates and their text, `Interval`,
   `IntervalText` and `IntervalParser` are the thirteen interval types, `NumericLiteral`, `NumericSpelling` and `Narrowing`
   read numbers and cut them down to the integer C types, `Column` and `ColumnWriter` put one value into one buffer, and
   `GetData` and `GetDataLaws` are the call that reads a column in parts (`src/ffi/fetch.rs`). What arrives is told from
   the application's side, without the driver's own conversions: `Decoding` has the UTF-16 and UTF-8 decoders,
   `DatetimeSpelling` and `IntervalSpelling` the grammars of the texts that are read, `IntervalLiterals` the weight of
   those that are printed, and `NumberLaws`, `StructureLaws` and `TextLaws` say what a variable, a structure and a text hold.
3. **Catalog sorting** (`src/catalog_sort.rs`): `CatalogSort`, `Utf8Order`, `CatalogSortLaws`.
4. **Identifier arguments** (`src/catalog_ident.rs`): `CatalogIdent`, `TableTypes`.
5. **Cancellation** (`src/cancel.rs`, `src/query_timer.rs`, `SQLCancel` in `src/ffi/cursor.rs`): `Cancel` has the state and
   the relabelling, `CancelProtocol` runs executions, cancels and timers in every interleaving.

`Wrappers`, `Text`, `Decimal`, `Clock`, `Arithmetic`, `Bytes` and `Encoding` are shared. Code that changes a buffer, an array
or an object in place is a method proved against a function; the laws are lemmas about that function. Escape hooks, case
folding and the rendering of floats are parameters about which nothing is assumed.

`dafny verify dfyconfig.toml` checks everything.

## Where the code and what is said of it differ

- **A declined `{fn}` call.** The comments say that translating the argument and the tail apart equals translating the rest
  of the escape in one piece. That holds exactly when no `{...}` straddles the `)`: `{fn f({d )})}` is refused with 42000
  where one piece would be `f(` + the rendered date + `)`. See `EscapeLaws.CutAgreesIffNothingStraddles` and
  `EscapeDepth.StraddledCallIsRefused`.
- **Interval text "0".** The printer's fallback is said to be unreachable for a year-month value. It is reached exactly by a
  MONTH interval of more months than a `u32` holds, such as 400 million years. See `IntervalParser.MonthsOverflowIff`.
- **Timestamp text** with a negative year cannot be read back (22018), and a fraction of a second or more, which its type can
  hold, silently loses its tenth digit. See `Datetime.TimestampRoundTrip` and `Datetime.LongFractionWitness`.
- **A fixed type read twice.** The second read is said to answer SQL_NO_DATA. It does exactly when the value drops no
  fraction: a dropped one (01S07) travels as an error, the cursor is lost, and the variable is filled again. See
  `GetDataLaws.FixedIsReadOnceIff` and `GetDataLaws.FixedReadTwiceWitness`.
- **An error while reading in parts.** A failed call is said not to advance the cursor. It discards it, so a value partly
  delivered starts over. See `GetDataLaws.ErrorKeepsPlaceIff` and `GetDataLaws.FailedPartWitness`.

## Model

| member | source | states |
|---|---|---|
| `Locality.MatchIsFirstReturn` | src/escape.rs:342-430 | A delimiter matcher answers the least index outside every literal, quoted identifier and comment at which the bracket depth is back to zero, and nothing exactly when there is none below its limit. |
| `Locality.MatchFindsFirstZero` | src/escape.rs:342-430 | The same from the middle of a group at any depth: the depth counter never goes below zero before the answer. |
| `Locality.MatchIgnoresLaterLimit` | src/escape.rs:393-430 | A match found below a limit is the match under every limit beyond it. |
| `Locality.NextAfter` | src/escape.rs:250-338 | What a region is and where it ends does not depend on text before the place it starts. |
| `Locality.MatchWithinBoundary` | src/escape.rs:342-381 | Cut at a region boundary, the text before the cut has the match the whole text has inside it, and no other. |
| `EscapeLaws.SliceSplits` | src/escape.rs:201-240 | Where the cursor stops, a statement can be cut and the halves translated apart, errors and their order included. |
| `EscapeLaws.CallCutLaw` | src/escape.rs:563-607 | With no `{...}` straddling the `)`, open span, arguments, `)` and tail reassemble to the translation of the whole, errors included; with one, the argument text alone is an error. |
| `EscapeLaws.CutAgreesIffNothingStraddles` | src/escape.rs:563-607 | Where the whole translates, reassembling equals it if and only if nothing straddles the `)`. |
| `EscapeLaws.DeclinedCallIsOnePiece` | src/escape.rs:563-607 | Whenever a call is declined, the text handed back is exactly the translation of the rest of the escape in one piece at the same depth. |
| `EscapeLaws.StraddledCutFails` | src/escape.rs:342-381 | A text cut inside an escape, at a region boundary, cannot be translated on its own. |
| `EscapeLaws.UnitInPlace` | src/escape.rs:201-240 | Every unit the cursor steps over is translated on its own, in its place. |
| `EscapeLaws.RegionIsProtected` | src/escape.rs:215-239 | Every string, quoted identifier and comment met at top level is copied unchanged between what stands before and after it. |
| `EscapeLaws.UnrecognisedIsProtected` | src/escape.rs:523-528 | So is every `{...}` whose keyword is none of the known ones. |
| `EscapeLaws.TextOutsideEscapesIsKept` | src/escape.rs:201-240 | With no `{` outside a region, the output is the input. |
| `EscapeLaws.FastPathAgrees` | src/escape.rs:187-199 | The fast path for text with no brace gives what the scanner gives. |
| `EscapeLaws.RecursionIsAligned` | src/escape.rs:455-588 | Every span handed to recursion starts and ends on a region boundary of the enclosing text, and the `)` found lies strictly inside the escape. |
| `EscapeLaws.GroupIsEscape` | src/escape.rs:342-381 | The text from a `{` to its match is an escape on its own. |
| `EscapeDepth.NestingLimitIsExact` | src/escape.rs:169-213 | n nested `{oj ...}` around plain text translate if and only if n is at most 64; beyond that the answer is 42000. |
| `EscapeDepth.NestedTranslates` | src/escape.rs:503-506 | Within the limit the nest becomes the plain text, trimmed. |
| `EscapeDepth.StraddleWitness` | src/escape.rs:563-607 | The rest of a declined call, `({d )})`, translates in one piece, while its argument cut at the first `)` is an error. |
| `EscapeDepth.StraddledCallIsRefused` | src/escape.rs:563-607 | The statement `{fn f({d )})}`, at the entry point, is refused with 42000 although the rest of its escape translates in one piece. |
| `EscapeForms.StatementBecomes` | src/escape.rs:497-530 | A statement that is one escape, by its keyword in any case after any blanks: `d`, `t` and `ts` become what the dialect renders of the trimmed body as a date, a time, a timestamp; `escape` becomes `ESCAPE` and the trimmed body; `oj` its body translated and trimmed; `call` and `?` are HYC00; any other word keeps the text whole. |
| `EscapeForms.EscapeBecomes` | src/escape.rs:434-530 | The same at every depth. |
| `EscapeForms.FnCallBecomes` | src/escape.rs:563-607 | `{fn name (args) tail}`, put together from its parts: arguments and tail translated one level down, the first error of the two kept; the dialect's replacement for the name and the trimmed arguments with the tail behind it; or, declined, the remapped name and every part in its place. |
| `EscapeForms.NameIsRemapped` | src/escape.rs:466-495 | A function name with no parenthesised arguments is remapped and the rest translated. |
| `EscapeForms.NamelessIsKept` | src/escape.rs:477-479 | `{fn}` without a name is kept whole. |
| `EscapeForms.StringIsKept` | src/escape.rs:250-282 | A string of any text with its quotes doubled comes through unchanged, and what follows is translated on its own. |
| `EscapeForms.IdentifierIsKept` | src/escape.rs:250-282 | So does an identifier in the quotes of the first style that opens with its quote, the closing quote doubled where the two are one character. |
| `EscapeForms.LineCommentIsKept` | src/escape.rs:286-294 | So does a line comment of any text. |
| `EscapeForms.BlockCommentIsKept` | src/escape.rs:298-307 | So does a block comment of any text without a closer. |
| `EscapeScanner.SkipQuoted` | src/escape.rs:250-282 | The string and identifier loops stop at the closing quote, doubled quotes skipped, in as many steps as characters. |
| `EscapeScanner.SkipLineComment` | src/escape.rs:286-294 | The loop stops behind the line end. |
| `EscapeScanner.SkipBlockComment` | src/escape.rs:298-307 | The loop stops behind the first `*/`. |
| `EscapeScanner.FindMatchingBrace` | src/escape.rs:342-381 | The loop computes the brace match, 42000 without one, with work linear in the span. |
| `EscapeScanner.FindMatchingParen` | src/escape.rs:393-430 | The loop computes the parenthesis match below its limit, with work linear in the span. |
| `EscapeScanner.TranslateSlice` | src/escape.rs:201-240 | The main loop computes the translation of a slice within the budget of its length and depth. |
| `EscapeScanner.TranslateEscape` | src/escape.rs:434-530 | One escape, read in the enclosing text, becomes what it becomes on its own; the cursor moves behind it. |
| `EscapeScanner.TranslateCall` | src/escape.rs:563-607 | A call is rewritten, declined with its parts reassembled, or no call, as the escape on its own would be. |
| `EscapeScanner.Translate` | src/escape.rs:187-199 | Translation terminates on every statement with work at most 391 per character: linear, not exponential in the nesting. |
| `ChunkWriter.ImageFits` | src/column_value.rs:1667-1927 | A call puts its delivered units and its terminator into the buffer and never more than the declared length. |
| `ChunkWriter.WriteWchar` | src/column_value.rs:1667-1720 | The allocation-free UTF-16 loop gives the same return, count, indicator and buffer as the writer over encoded units, and touches nothing behind them. |
| `ChunkWriter.WriteWcharUnits` | src/column_value.rs:1727-1797 | The writer over units gives the chunk at its offset, two bytes a unit, for every buffer length, null buffer and offset. |
| `ChunkWriter.WriteCharBytes` | src/column_value.rs:1829-1872 | The same for bytes with a one-byte terminator. |
| `ChunkWriter.WriteBinary` | src/column_value.rs:1884-1927 | The same for bytes without a terminator. |
| `ChunkWriter.OnePart` | src/column_value.rs:1667-1927 | With room for a unit, a call delivers the next units in order, reports what was left when it began, and succeeds exactly when nothing is left. |
| `ChunkWriter.DrainDeliversAll` | src/column_value.rs:1667-1927 | For any buffer sizes with room for a unit, the calls end in success, the parts concatenate to the value, the indicators count down. |
| `Decoding.Utf16Decodes` | src/column_value.rs:1667-1720 | The units written for a text decode to it by section 2.2 of RFC 2781, for every text. |
| `Decoding.UnitBytesRead` | src/column_value.rs:1727-1797 | The bytes of units, read two at a time low byte first, are the units. |
| `Decoding.Utf8Decodes` | src/column_value.rs:1814-1872 | The bytes written for a text decode to it by section 3 of RFC 3629. |
| `Calendar.CivilIsValid` | src/column_value.rs:1087-1100 | Every day number gives a valid date, which determines the day number. |
| `Calendar.CivilIsOnto` | src/column_value.rs:1087-1100 | Every valid date is the date of exactly one day number. |
| `Calendar.CivilSucceeds` | src/column_value.rs:1087-1100 | The next day number gives the next day by the lengths of the months. |
| `Calendar.CivilIncreases` | src/column_value.rs:1087-1100 | Day numbers and dates are in the same order. |
| `Calendar.EpochIs1970` | src/column_value.rs:1087-1100 | Day zero is 1970-01-01. |
| `Calendar.NextDayNumber` | src/column_value.rs:1255-1278 | Month lengths and leap years agree with the day count: the next valid day is one more. |
| `Calendar.NoOverflow` | src/column_value.rs:1087-1100 | No step leaves its 64-bit type while the shifted day number fits. |
| `Datetime.NineDigitFraction` | src/column_value.rs:1332-1342 | The padding loop reads a fraction of any length as billionths. |
| `Datetime.ParseTimeFields` | src/column_value.rs:1305-1349 | The field-by-field parser gives the specified time or the first error, 22018 or 22007. |
| `Datetime.TimestampRoundTrip` | src/column_value.rs:1379-1402 | Any timestamp its types hold, fractions of ten digits included: the text is 22018 for a negative year, 22007 for fields that make no date or time of day, and otherwise reads back as the same fields save the tenth digit of the fraction. All seven come back if and only if the year is not negative, the fields are valid and the fraction is below a second. |
| `Datetime.LongFractionWitness` | src/column_value.rs:1332-1342 | A concrete fraction of 1000000000 is read back as 100000000, not refused. |
| `Datetime.DateAndTimeRoundTrip` | src/column_value.rs:1281-1377 | The same for a bare date, read as midnight, and for any time its types hold on its own. |
| `Datetime.AcceptedTimestamp` | src/column_value.rs:1379-1402 | Whatever text is accepted gives a date of exactly one day number and a valid time, and prints and reads back unchanged. |
| `Datetime.EveryDayIsAccepted` | src/column_value.rs:1281-1302 | The text of every calendar day in the years the type holds is accepted as that day. |
| `DatetimeSpelling.TimesAreSpellings` | src/column_value.rs:1305-1377 | A text is a time if and only if, blanks aside, it is `h:m`, `h:m:s` or `h:m:s.f` of fields of digits in range; it is read as those fields, no seconds where there are none, and the fraction cut off below a billionth. |
| `DatetimeSpelling.MomentIsRead` | src/column_value.rs:1281-1402 | Every text of the shape of a date, a date and `T`, or a date, a blank or `T` and a time is read as the moment it spells, or is 22007 when that is out of range. |
| `DatetimeSpelling.MomentsAreSpellings` | src/column_value.rs:1281-1402 | A text is a timestamp if and only if it is such a spelling in range. |
| `Interval.SplitIsUnique` | src/column_value.rs:2953-2988 | A total has at most one mixed-radix split into the fields a target spans. |
| `Interval.SplitDayTime` | src/column_value.rs:2953-2988 | For every total and day-time target the split is that one, fields below their radix, truncation flagged exactly when something is dropped; nothing exactly when the leading count exceeds a `u32`. |
| `Interval.ClosedFormSplits` | src/column_value.rs:2953-2988 | Peeling fields coarsest first is the same as dividing the total by each unit. |
| `Interval.SplitYearMonth` | src/column_value.rs:2996-3024 | The same law in months. |
| `Interval.MonthSplitIsUnique` | src/column_value.rs:2996-3024 | A number of months has at most one split. |
| `IntervalText.RenderInterval` | src/column_value.rs:3555-3615 | The loop over the fields prints the literal of each of the thirteen types, or the fallback. |
| `IntervalLiterals.LiteralWeighs` | src/column_value.rs:3555-3615 | For each of the ten day-time types: read field by field from the leading one, fraction included, a literal weighs the total cut off at its last field; its separators are those of its type, and each later field has two digits or more. |
| `IntervalLiterals.YearMonthWeighs` | src/column_value.rs:3555-3615 | The same in months for the three year-month types. |
| `IntervalParser.DayTimeTextMeans` | src/column_value.rs:3112-3167 | Every `[-]d hh:mm:ss[.f]` text with fields in range is read as exactly the nanoseconds it spells, the dropped flag set exactly when something below a nanosecond was cut, 22015 exactly when an `i128` cannot hold the total. |
| `IntervalParser.DayTimeRoundTrip` | src/column_value.rs:3089-3167 | The DAY TO SECOND text of every total, negatives under a day included, reads back as that total with nothing dropped, exactly when the day count fits a `u32`. |
| `IntervalParser.YearMonthRoundTrip` | src/column_value.rs:3101-3121 | The YEAR TO MONTH text of `i32` years and months reads back as the same months exactly when their whole years fit an `i32`; otherwise 22015. |
| `IntervalParser.OtherLiteralsAreRefused` | src/column_value.rs:3089-3167 | The other eleven literals, and both of these for a target of the other family, are 22018. |
| `IntervalParser.AcceptedIsCanonical` | src/column_value.rs:3089-3167 | Accepted text is of the target's family, with fields in range and of one sign. |
| `IntervalParser.AcceptedTextNormalises` | src/column_value.rs:3089-3167 | Printing what a text was read as, and reading that, changes nothing. |
| `IntervalSpelling.SpellingIsRead` | src/column_value.rs:3089-3167 | Every text of digits in the shape of a day-time or a year-month interval, blanks around it, is read as what it spells; hours past 23, minutes or seconds past 59 and months past 11 are 22018, a field or total too large 22015, the other family 22018. |
| `IntervalSpelling.IntervalsAreSpellings` | src/column_value.rs:3089-3167 | A text is an interval if and only if it is such a spelling in range. |
| `IntervalParser.MonthsOverflowIff` | src/column_value.rs:2835-2850 | The "0" fallback is reached by `i32` years and months exactly for a MONTH interval of more than `u32` months. |
| `IntervalParser.MonthsOverflowWitness` | src/column_value.rs:2835-2850 | A concrete such value. |
| `NumericLiteral.ToIntegerTruncates` | src/param_convert.rs:886-932 | The integer of a literal is its value cut off toward zero, refused exactly when an `i128` cannot hold that; the expansion limit refuses nothing else. |
| `NumericLiteral.FractionIsZeroIffIntegral` | src/param_convert.rs:760-771 | The fraction test is true exactly when the value is whole. |
| `NumericSpelling.LiteralsAreSpellings` | src/param_convert.rs:546-581 | A text is a numeric literal if and only if it is blanks, optional sign, digits around an optional point with at least one digit, optional exponent and blanks, with exponent and scale in range; it is read as its digits at its scale. |
| `NumericSpelling.IntegerTextIs` | src/param_convert.rs:546-581 | The text of an integer is read as its sign and digits, which spell it. |
| `NumberLaws.NumberIsMeaning` | src/param_convert.rs:546-581 | The literal read from a spelling means the number its digits, point and exponent spell. |
| `Narrowing.WrittenIsRead` | src/column_value.rs:1180-1192 | A number a target holds is what the application reads from the bytes written. |
| `Narrowing.ReadIsHeld` | src/column_value.rs:1180-1192 | Whatever bytes a variable has, its type holds what they read as: the range checked is exactly what the bytes can say. |
| `Narrowing.SaturationIsHarmless` | src/column_value.rs:2421-2445 | The saturating cast to `i128` moves no number into or out of a target's range. |
| `Narrowing.WriteTruncatedFloat` | src/column_value.rs:2421-2445 | A float is written cut off toward zero exactly when that is in range; a NaN or infinity, or a number out of range, writes nothing. |
| `Narrowing.WriteExactInteger` | src/column_value.rs:2477-2500 | The same for a literal. |
| `Narrowing.WriteNumericPivot` | src/column_value.rs:2108-2264 | For all eight targets and every source: the value cut off toward zero if and only if in range, success if and only if whole, 01S07 if and only if a fraction was dropped, otherwise 22003 with buffer and indicator untouched. |
| `Narrowing.EqualNumbersNarrowAlike` | src/column_value.rs:2007-2083 | Equal numbers, whatever numerator and denominator they come with, are narrowed alike: the same answer and the same integer. |
| `Narrowing.SourcesAgree` | src/column_value.rs:2007-2083 | So integers, floats and literals that hold the same number are. |
| `Narrowing.IntegerAndText` | src/column_value.rs:2007-2027 | An integer and its text hold the same number. |
| `NumberLaws.NumberIsRead` | src/column_value.rs:2055-2264 | Every value that holds a number, each integer width, a truth value, a finite float, text that spells one: each of the eight integer variables reads the number cut off toward zero, told 01S07 if and only if a fraction was dropped; out of range, 22003 and nothing written. |
| `NumberLaws.IntegerIsRead` | src/column_value.rs:2055-2186 | An integer or truth value is read as itself or refused with 22003. |
| `NumberLaws.NoNumberIsRefused` | src/column_value.rs:2055-2083 | A NaN or an infinity is 22003; a value of a type that holds no number 07006. |
| `Column.RenderColumnInterval` | src/column_value.rs:2835-2857 | The text of an interval value is the printed split, in closed form. |
| `TextLaws.NumberTextHoldsIt` | src/column_value.rs:2684-2705 | The text of an integer or a truth value holds the number the value holds. |
| `TextLaws.BinaryTextIsRead` | src/column_value.rs:2758-2761 | The hexadecimal text of bytes reads back as the bytes. |
| `TextLaws.GuidTextIsRead` | src/column_value.rs:2762-2784 | A GUID's text has its hyphens in their places and reads back as its sixteen bytes. |
| `TextLaws.MomentTextIsRead` | src/column_value.rs:2706-2757 | The texts of dates, times and timestamps read back as the values, under the exact conditions of the round trips. |
| `TextLaws.MomentTextShape` | src/column_value.rs:2706-2757 | Dates of four-digit years are `yyyy-mm-dd`, times `hh:mm:ss`, with a fraction exactly where there is one and no zero at its end. |
| `TextLaws.ZonedTextIsRead` | src/column_value.rs:2786-2813 | The text of a zoned timestamp is one read back as the timestamp, and a signed offset in hours and minutes read back as the offset. |
| `TextLaws.DayTimeTextMeans` | src/column_value.rs:2849-2857 | The text of a day-time interval value is the sign of its total and a literal of its type that weighs the total cut off at its last field, or "0" when the leading count exceeds a `u32`. |
| `TextLaws.YearMonthTextMeans` | src/column_value.rs:2835-2848 | The same for years and months, twelve months to the year. |
| `TextLaws.TextArrives` | src/column_value.rs:2684-2834 | With room, character data, decimals, JSON, structured values and floats arrive as text that decodes to their own, the infinities as `Infinity` and `-Infinity`. |
| `TextLaws.BytesArrive` | src/column_value.rs:3632-3650 | With room, the bytes of a value hold it: integers low byte first, truth values, GUIDs and bytes as they are, anything else its text in UTF-8. |
| `TextLaws.LengthIsAlwaysTold` | src/column_value.rs:1596-1872 | Asked without a buffer, or with one that holds no unit, for its length, no value is refused: the indicator has the length of its text. |
| `StructureLaws.TextIsDelivered` | src/column_value.rs:1667-1872 | With room, the bytes before the terminator of either character type decode to the value's text, and the terminator is zero. |
| `StructureLaws.MomentIsRead` | src/column_value.rs:610-1055 | Dates, timestamps, zoned timestamps and text that is either: the application reads the date, the time of day or both from the structure it asked for, and 01S07 says exactly when a time that is not midnight or a fraction was dropped. |
| `StructureLaws.TimeIsRead` | src/column_value.rs:634-852 | The same for a time and for text that is one. |
| `StructureLaws.OtherTextIsRefused` | src/column_value.rs:610-726 | Text that is no moment is 22007 when its form is recognised and 22018 when not, and nothing is written. |
| `StructureLaws.GuidImageReads` | src/column_value.rs:558-582 | The three integers of a GUID structure are the first three groups, high byte first, and the last eight bytes are as they are. |
| `StructureLaws.DefaultKeepsTheValue` | src/column_value.rs:337-411 | Under SQL_C_DEFAULT, with room or a size left open, a value of every type arrives as what it is; only a time loses its fraction, and says so. |
| `ColumnWriter.CheckWholeDigitsFit` | src/column_value.rs:1596-1650 | The check passes exactly for exempt calls and where the whole part and a terminator fit. |
| `ColumnWriter.WholeDigitsSurvive` | src/column_value.rs:1596-1650 | Given a usable buffer, a number or interval either fails and writes neither buffer nor indicator, exactly when its whole part does not fit, or delivers everything before the point, sign included, odd buffer lengths too. |
| `ColumnWriter.DefaultStaysInside` | src/column_value.rs:337-411 | With SQL_C_DEFAULT and a positive buffer length, no byte at or beyond it is written, whatever the value. |
| `ColumnWriter.CachedAgrees` | src/column_value.rs:253-308 | At every offset, length and null-ness the cached write does what the uncached one does. |
| `ColumnWriter.WriteCachedChunk` | src/column_value.rs:282-308 | The cached write goes to the writer of its type. |
| `ColumnWriter.WriteColumnValueAt` | src/column_value.rs:319-530 | The return, the buffer and the indicator after a call are the specified effect, and nothing else changes. |
| `ColumnWriter.FixedFits` | src/column_value.rs:1161-1178 | A fixed conversion fills exactly the variable of its type, the widths the inference is checked against. |
| `ColumnWriter.TextAndTypedAgree` | src/column_value.rs:610-726 | A timestamp fills a date or a time structure alike as its text and as itself, 01S07 included, whatever its fraction, and a timestamp structure where its text reads back; so do a time and a date. |
| `ColumnWriter.TimestampTextIsNoTime` | src/column_value.rs:634-658 | The text of a timestamp is refused by the time parser with 22018, never 22007, so the fall-through to the timestamp parser is taken. |
| `ColumnWriter.DateImageReads` | src/column_value.rs:804-812 | The application reads the date's three fields from the structure written. |
| `ColumnWriter.TimeImageReads` | src/column_value.rs:830-852 | The application reads the time's three fields. |
| `ColumnWriter.TimestampImageReads` | src/column_value.rs:888-911 | The application reads the date's and the time's fields and the fraction. |
| `GetData.Statement.GetData` | src/ffi/fetch.rs:1169-1313 | One call moves the cursor and answers as the step function says, and keeps the cache coherent. |
| `GetData.StepIsPlain` | src/ffi/fetch.rs:1240-1300 | One call with the cache gives the reply and position of one without. |
| `GetData.CacheIsTransparent` | src/ffi/fetch.rs:1218-1313 | For any calls on any columns, target types changing as they like, the machine with the cache answers as the one without. |
| `GetDataLaws.PlainRunConserves` | src/ffi/fetch.rs:1307-1313 | However small the buffers, what the calls have delivered is the value from where they started to where they stand: nothing lost or repeated. |
| `GetDataLaws.ReadingInPartsDeliversAll` | src/ffi/fetch.rs:1218-1313 | With room for a unit each time, more calls than units deliver the whole value, and the next call answers SQL_NO_DATA. |
| `GetDataLaws.TextReadInPartsDecodes` | src/ffi/fetch.rs:1218-1313 | Whatever the buffers, the parts of character data put together decode to the value's text. |
| `GetDataLaws.OtherColumnStartsOver` | src/ffi/fetch.rs:1224-1239 | Reading another column leaves the one before: the next reply is as if nothing had been read. |
| `GetDataLaws.NullIsRead` | src/ffi/fetch.rs:1240-1313 | A NULL is told by the indicator and then SQL_NO_DATA, or is 22002 each time where there is no indicator. |
| `GetDataLaws.ErrorKeepsPlaceIff` | src/ffi/fetch.rs:1169-1300 | A failed call keeps the place if and only if its arguments were refused or there was no place to lose: no cursor, or one that had delivered nothing and was not finished. |
| `GetDataLaws.ErrorStartsOver` | src/ffi/fetch.rs:1224-1300 | After an error of the write the next call is as if none had been made. |
| `GetDataLaws.FailedPartRepeats` | src/column_value.rs:1588-1595 | A number asked for with a buffer too small for its whole digits is refused, then delivered from its start, which is what was left if and only if nothing had been delivered. |
| `GetDataLaws.FailedPartWitness` | src/column_value.rs:1588-1595 | A concrete run: "12." of the decimal 12.5, a refusal, then "12.5". |
| `GetDataLaws.FixedIsReadOnceIff` | src/ffi/fetch.rs:1303-1313 | The second call for a fixed variable answers SQL_NO_DATA if and only if the value fills the variable and drops no fraction, both decided by the value and the target, SQL_C_DEFAULT included; a value that drops one fills it again. |
| `GetDataLaws.NumberIsReadOnceIff` | src/ffi/fetch.rs:1303-1313 | For a number into an integer variable that is exactly when the variable can hold it and it is whole. |
| `GetDataLaws.FixedReadTwiceWitness` | src/ffi/fetch.rs:1303-1313 | A concrete time with a fraction is delivered twice, by name and by default. |
| `CatalogSort.CompareRows` | src/catalog_sort.rs:57-72 | The loop over the keys is the lexicographic comparison, ending at a key a row is too short for. |
| `CatalogSort.RowsConsistent` | src/catalog_sort.rs:17-73 | On rows whose key columns are present and of one type each, the comparator is a total preorder. |
| `CatalogSort.MixedTypesAreNoOrder` | src/catalog_sort.rs:43-47 | Without that it is not: a concrete triple. |
| `CatalogSort.MissingKeyTies` | src/catalog_sort.rs:57-72 | Rows with equal values up to a key that one of them is too short for tie, whatever the keys behind it say. |
| `CatalogSort.SortRows` | src/catalog_sort.rs:56-73 | The rows are sorted in place to the specified arrangement. |
| `CatalogSortLaws.SortIsStable` | src/catalog_sort.rs:51-73 | Homogeneous rows come out ordered by the comparator, a permutation, rows it ties in their original order. |
| `CatalogSortLaws.StableSortIsUnique` | src/catalog_sort.rs:51-73 | That arrangement is unique, so any stable sort gives it. |
| `CatalogSortLaws.FirstDifferenceAscends` | src/catalog_sort.rs:17-73 | Of two rows in the result, the first key column that tells them apart, any key and not the leading one alone, has the smaller value in the earlier row: NULL first exactly under SQL_NC_LOW, integers as numbers, text by its first differing code point. |
| `CatalogSortLaws.SameKeysKeepOrder` | src/catalog_sort.rs:51-73 | Rows with equal values in all key columns come out in the order they went in. |
| `CatalogSortLaws.NullsPlaced` | src/catalog_sort.rs:18-34 | By the leading key NULLs come first exactly under SQL_NC_LOW, and last otherwise. |
| `CatalogSortLaws.LeadingKeyAscends` | src/catalog_sort.rs:35-42 | By the leading key integers ascend as numbers and text in code point order. |
| `Utf8Order.ByteOrderIsCharOrder` | src/catalog_sort.rs:35 | Comparing text by its UTF-8 bytes is comparing it by its code points. |
| `CatalogIdent.EscapePatternMetacharacters` | src/catalog_ident.rs:123-138 | The loop escapes every wildcard and every escape character in one pass. |
| `CatalogIdent.EscapedMatchesOnlyItself` | src/catalog_ident.rs:118-138 | As a LIKE pattern the escaped value matches the value and nothing else, even if the escape character is itself a wildcard. |
| `CatalogIdent.NormaliseIdentifier` | src/catalog_ident.rs:51-72 | The pattern is the escaped name the argument stands for. |
| `CatalogIdent.DelimitedIsLiteral` | src/catalog_ident.rs:102-116 | A delimited argument stands for the text between the delimiters, unfolded. |
| `CatalogIdent.CaseDoesNotMatter` | src/catalog_ident.rs:51-72 | Looked up with an escape character, an undelimited argument finds a name if and only if the name is its upper case under SQL_IC_UPPER, its lower case under SQL_IC_LOWER, the argument itself otherwise. |
| `CatalogIdent.IdentifierMatchesOneName` | src/catalog_ident.rs:42-72 | The pattern matches exactly its name; with an empty escape string, if and only if the name has no wildcard. |
| `TableTypes.ListRoundTrip` | src/catalog_ident.rs:148-154 | However the values are quoted and spaced, inside the quotes and outside, the list reads back as their names in order. |
| `TableTypes.ParsedTypesAreTrimmed` | src/catalog_ident.rs:148-154 | No value read from any list is empty or padded. |
| `Cancel.CancelState.Expire` | src/query_timer.rs:155-190 | An expired timer's two actions on the shared state are the protocol's two steps in their order: in between, the token is marked and nothing else. |
| `Cancel.CancelState.Check` | src/query_timer.rs:269-324 | A success is left alone; a failure is HYT00 if the deadline is to blame, else HY008 if the token is signalled, else its own. |
| `CancelProtocol.StepKeepsInv` | src/query_timer.rs:125-343 | Every step of every thread keeps the invariant: a timer marks a token before it cancels it, every signal on a token was meant for it, every report is explained by them. |
| `CancelProtocol.EveryThreadCanProceed` | src/query_timer.rs:125-343 | In every run every call, SQLCancel and timer can take its next step, whatever the others have done. |
| `CancelProtocol.SignalsAreSeen` | src/cancel.rs:60-74 | In every run a token is signalled by the application if and only if a SQLCancel that held it landed, by a timer if and only if a timer's cancel landed, and marked if and only if a timer armed on it marked it. |
| `CancelProtocol.LandedCancelIsReported` | src/ffi/cursor.rs:601-616 | If a SQLCancel or a timer's cancel has landed on a call's token when its failure is examined, every continuation of the run reports HY008 or HYT00. |
| `CancelProtocol.CancelHoldsLastToken` | src/ffi/cursor.rs:520-550 | A SQLCancel holds the token of the last execution begun on its statement before it, told from the events alone. |
| `CancelProtocol.CallsHoldTheirToken` | src/backend.rs:956-971 | An execution runs under a new token that nothing has signalled; a later read of its cursor under the last one. |
| `CancelProtocol.AnswerIsTheBackends` | src/cancel.rs:114-132 | In every run what a call takes for its backend's answer is what the backend answered. |
| `CancelProtocol.TimeoutIsReported` | src/query_timer.rs:215-324 | Where a timer is held, a failure examined after its own timer fired or any timer marked its token is reported as HYT00 in every continuation. |
| `CancelProtocol.DroppedTimerNeverFires` | src/query_timer.rs:125-225 | A timer still waiting when its call lets go of it never fires. |
| `CancelProtocol.SuccessIsNeverRelabelled` | src/cancel.rs:114-132 | In every run a call is reported as a success if and only if its backend returned one, told from the events. |
| `CancelProtocol.CanceledMeansOwnToken` | src/cancel.rs:76-149 | In every run HY008 on a call means its own execution's token is cancelled, where a timer is held by a SQLCancel; and a SQLCancel that signalled a token had cloned that very token after it was minted. |
| `CancelProtocol.EarlierCancelMisses` | src/backend.rs:956-971 | In every run a SQLCancel begun before an execution leaves that execution's token as it was. |
| `CancelProtocol.CauseIsVisible` | src/cancel.rs:60-74 | In every run whoever sees a token cancelled sees that a SQLCancel signalled it or that it timed out. |
| `CancelProtocol.TimerAloneIsNeverCanceled` | src/query_timer.rs:226-324 | In every run an entry point that holds a timer never says HY008 of a token no SQLCancel has signalled, whatever was attempted. |
| `CancelProtocol.TimeoutMeansOwnTimer` | src/query_timer.rs:215-324 | In every run HYT00 is said only where a timer is held, after a timer armed on this execution's token fired. |
| `CancelProtocol.ExaminationDecides` | src/cancel.rs:114-149 | However a run goes on, a failure examined while its token is cancelled is reported as HY008 or HYT00, never as its own error; one examined before that as its own error or HYT00, never HY008. |
| `CancelProtocol.TimerlessCallSaysCanceled` | src/cancel.rs:90-113 | The documented exception is real: a run in which SQLGetData says HY008 of a token only a timer signalled. |

## Left out

- The copying helpers (`src/escape.rs:310-338`) are the skips followed by one copy, and are inlined where they are used.
- Escape hooks: remapping, rewriting and the datetime renderers are arbitrary functions of their text.
- Work is counted in loop turns and in the bodies trimmed without being translated, not in time; trimming translated text, whose length the hooks decide, and copying the output are not counted.
- Buffers are arrays with a declared length that may be null; alignment, structure layout beyond the bytes of dates, times, timestamps, GUIDs and integers, and byte order other than low byte first are not modelled.
- The text and the memory image of a float come with the value, since rendering and IEEE layout are not modelled; so does the text of arrays, maps and rows.
- Lengths are unbounded where the source saturates at the width of `isize`.
- Conversions that read the clock, SQL_C_NUMERIC, the interval structures, float targets from other sources, the Bit target from numbers, and the integer targets from intervals and from text that is no numeric literal are one arbitrary answer that fills exactly its variable.
- Finite floats are exact rationals; no rounding happens in the paths modelled.
- The backend answers a column with the same value whatever type is asked for; its own errors and warnings, the row position and handles are left out.
- The library's stable sort appears as an insertion sort; the result is the same for every stable sort. Rows that are not homogeneous have no order to state.
- SQL_NC_START and SQL_NC_END, which the comparator treats as it treats SQL_NC_HIGH.
- Case folding is an arbitrary function of the name.
- Atomics and locks are single steps, in any order that program order allows; a signal may fail to land. Registry slots, handle validity and the diagnostics of `SQLCancel` are left out.
- Descriptors, binary conversion, the information tables, diagnostics and the conformance harness would add only easy members.
