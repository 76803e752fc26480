# Autoflights: a verified model of the flight-record pipeline

Autoflights reads the flight listings that Google Flights shows for a route
and a month, and returns them as price-ranked records plus a text table. This
project models the deterministic part of `scrape_flights` in
`googleflights_auto.py`, which starts once the page's listings have been read.
It proves what that part guarantees about its output.

The model follows the code's own order of stages:

1. **Field extraction.** `get_text`, `first_line`, `extract_price` and
   `extract_airline` turn the text of one listing's six elements into record
   fields (module `Extract`, built on `Text` and `Subst`).
2. **Record build and acceptance filter.** The loop reads the first twenty
   listings, builds one record per listing and skips a listing without a
   price or with an unusable airline (module `Records`).
3. **Duplicate filter.** A record is dropped when an earlier record has the
   same airline, departure, arrival and price text (module `Dedup`).
4. **Ranking and table.** Python's stable `sorted` orders the records by
   price, and the table takes the first ten rows (module `Ranking`).
5. **Clean-up.** This runs last, in place, on every returned record. It
   applies a character re-coding, sixteen artifact replacements, `strip`, and
   `normalize_spacing` (modules `Cleanup` and `Normalize`).

`Pipeline.ScrapeFlights` chains the stages as the source does.

**Substitutions.** Every `re.sub` and `str.replace` of the source is one
`Subst.Rule`, run by a single left-to-right, non-overlapping scanner
(`Subst.Sub`). Look-behind and look-ahead conditions read the original text,
as `re.sub` does.

**Character classes.** Python's whitespace (`str.isspace`, `\s`) is modelled
with its exact set of code points. `splitlines` breaks at its exact set of
line-break characters.

**Modelling style.**
- The loops that build lists become methods with invariants: the record loop
  (`Records.BuildRecords`), the `seen` loop (`Dedup.DedupRecords`) and the
  `add_row` loop (`Ranking.DrawTable`).
- The clean-up loop overwrites record fields in place. It is a method over
  an `array` of records (`Cleanup.CleanRecords`).
- Each method is proved against a specification function: `Accepted`,
  `FirstOccurrences`, `Columns` or `CleanRecord`. The lemmas state what those
  functions guarantee.

**Properties of the code worth knowing:**
- `normalize_spacing` is not idempotent: `Normalize.NotIdempotent` shows
  that "ABCDEFGH" becomes "ABC DEFG H", and a second pass gives
  "ABC DEF G H".
- The free-text fields are cleaned after de-duplication, sorting and drawing
  the table, overwriting each record in place. Therefore:
  - the key uniqueness and the airline filter hold for the text as read from
    the page;
  - the table shows that text, not the cleaned text;
  - clean-up can empty an airline that passed the filter
    (`Cleanup.CleanupEmptiesAirline`).
- `table.draw()` has no error handler around it, so the table step is
  modelled as total.

## Model

| member | source | states |
|---|---|---|
| Text.Strip | googleflights_auto.py:18 | `strip()` leaves no whitespace at either end and never lengthens the text |
| Text.StripEmpty | googleflights_auto.py:33 | `ln.strip()` is empty exactly when the line holds no non-whitespace character, which is the test that drops blank lines |
| Text.TrimmedStrip | googleflights_auto.py:37 | `strip()` leaves text unchanged when it has no whitespace at either end |
| Text.CoreStrip | googleflights_auto.py:197 | `strip()` removes whitespace only; the text's non-whitespace, non-comma characters are unchanged |
| Text.StripAbsent | googleflights_auto.py:223 | `strip()` adds no character |
| Text.Lines | googleflights_auto.py:33 | `splitlines()` returns at least one line |
| Text.LinesNoBreak | googleflights_auto.py:33 | no line that `splitlines()` returns contains a line-break character |
| Text.FirstBreakIs | googleflights_auto.py:18 | the first line ends at the first line-break character and at no other position |
| Text.StrippedNonBlank | googleflights_auto.py:33 | every line kept by the comprehension is non-empty and stripped, and there are no more of them than input lines |
| Subst.Sub | googleflights_auto.py:184-196 | one `re.sub` or `str.replace`: a left-to-right, non-overlapping scan that emits the replacement at each match and copies the text between matches; the lemmas below state its properties |
| Subst.SubAll | googleflights_auto.py:184-196 | a chain of substitutions, each applied to the result of the one before, in source order |
| Subst.LiteralSuffix | googleflights_auto.py:193-196 | a `str.replace` reads no text before the scan position, so the scan of a suffix is the rest of the scan of the whole |
| Subst.MatchAt | googleflights_auto.py:184-196 | every match of a pattern consumes at least one character and no more than remain, so the scan always moves forward |
| Subst.SubWithoutMatch | googleflights_auto.py:184-196 | a substitution whose pattern matches nowhere returns the text unchanged |
| Subst.SubCore | googleflights_auto.py:184-196 | a substitution whose matches insert, drop or replace only whitespace and commas keeps every other character, in order |
| Subst.SubAllCore | googleflights_auto.py:184-196 | the same holds for a chain of such substitutions |
| Subst.SubAbsent | googleflights_auto.py:207-222 | a character that is absent from the text and that the replacement cannot write is absent from the result |
| Subst.SubRemoves | googleflights_auto.py:210-222 | `s.replace(c, r)`, for a single character `c` not in `r`, leaves no `c` in the text |
| Subst.SubLowerUpper | googleflights_auto.py:188 | after `([a-z])([A-Z]) -> "\1 \2"`, no lower-case letter stands directly before an upper-case one, whatever the input |
| Subst.SubDigitUpper | googleflights_auto.py:189 | after `(\d)([A-Z]) -> "\1 \2"` on such text, no lower-case letter or digit stands directly before an upper-case letter |
| Subst.SubKeepsNoGlue | googleflights_auto.py:190-196 | a later substitution whose replacement keeps the matched text's edge characters (or puts a space there) cannot create such a pair |
| Extract.GetText | googleflights_auto.py:100-106 | `get_text` returns "N/A" or text with no whitespace at either end |
| Extract.GetTextShape | googleflights_auto.py:100-106 | the text of a present element is empty exactly when its inner text is blank; any other result holds a non-whitespace character |
| Extract.FirstLine | googleflights_auto.py:16-18 | `first_line("")` is "" |
| Extract.FirstLineShape | googleflights_auto.py:16-18 | on text with a non-whitespace character, `first_line` is non-empty, stripped and free of line breaks. It is the whole first line: it starts at the first non-whitespace character, and only whitespace lies between its end and the first line break (or the end of the text) |
| Extract.FirstLineIsLine | googleflights_auto.py:16-18 | `first_line` returns a stripped text with no line break |
| Extract.AmountEnd | googleflights_auto.py:23 | `[\d,]*` takes the longest run of digits and commas |
| Extract.FirstPrice | googleflights_auto.py:23 | `re.search` finds the leftmost position where `[$€£]\s?\d[\d,]*` matches, or reports that there is none |
| Extract.ExtractPrice | googleflights_auto.py:21-28 | the display form is empty exactly when there is no value; otherwise it starts with `$`, `€` or `£`, holds no space, and the value is non-negative |
| Extract.ExtractPriceSpec | googleflights_auto.py:21-28 | `("", None)` is returned exactly when the pattern matches nowhere. Otherwise the display form is the leftmost match with its spaces removed; it starts with `$`, `€` or `£`, holds no space and has the same digits as the match; the value is the number those digits spell |
| Extract.DisplayShape | googleflights_auto.py:26-27 | removing spaces keeps the currency sign first, and the display form has exactly the digits of the match, in order |
| Extract.Digits | googleflights_auto.py:27 | `re.sub(r"[^\d]", "", disp)` returns only digits |
| Extract.DigitsConcat | googleflights_auto.py:27 | the digits of a concatenation are the digits of each part, in order |
| Extract.DigitsOfDigits | googleflights_auto.py:27 | a string of digits keeps all of them: it is its own digit string |
| Extract.DigitsOfNonDigits | googleflights_auto.py:27 | a string without digits gives "" |
| Extract.PriceExample | googleflights_auto.py:21-28 | "Round trip$341 Delta" gives ("$341", 341) |
| Extract.NoPriceExample | googleflights_auto.py:24-25 | text without a currency amount gives ("", None) |
| Extract.MeaningfulLines | googleflights_auto.py:33 | every line of the comprehension is non-empty and stripped |
| Extract.AirlineOfLines | googleflights_auto.py:34-38 | the airline chosen from the meaningful lines is never "" |
| Extract.ExtractAirline | googleflights_auto.py:31-38 | `extract_airline` never returns "" |
| Extract.ExtractAirlineShape | googleflights_auto.py:31-38 | blank text gives "N/A"; any other result is "N/A" or a single stripped line |
| Extract.LinesOfBlank | googleflights_auto.py:33-35 | text with no non-whitespace character has no meaningful line |
| Extract.TextHasMeaningfulLine | googleflights_auto.py:33-34 | text with a non-whitespace character has a meaningful line |
| Extract.LastLineWins | googleflights_auto.py:33-36 | the airline comes from the last meaningful line: text before a line break is ignored once a non-blank line follows |
| Extract.NoBreakAfterRemoval | googleflights_auto.py:37 | removing "round trip" and stripping a line leaves it free of line breaks |
| Extract.NoRoundTrip | googleflights_auto.py:37 | text shorter than "round trip" is not changed by its removal |
| Extract.OneLineAirline | googleflights_auto.py:31-38 | text with no line break and a non-whitespace character is one meaningful line, its stripped self; its airline is that line with "round trip" removed and stripped, or "N/A" when nothing is left |
| Extract.OneWordAirline | googleflights_auto.py:31-38 | a single word shorter than "round trip" is its own airline |
| Extract.AirlineExample | googleflights_auto.py:31-38 | the lines "8:00 AM", "10:30 AM", "round trip", "Delta" give "Delta" |
| Extract.CleanDuration | googleflights_auto.py:126 | the duration text has no whitespace at either end |
| Extract.CleanDurationShape | googleflights_auto.py:126 | the duration is a single stripped line; it is `first_line` itself when that line contains no en dash |
| Records.GetTextDefined | googleflights_auto.py:103 | what `get_text` returns never makes `first_line` fail |
| Extract.CleanStops | googleflights_auto.py:127 | the stops field is a single stripped line |
| Records.BuildRecord | googleflights_auto.py:117-140 | a listing that is not skipped yields a record whose price is non-negative and whose airline is not "", "N/A" or all digits |
| Records.BuildRecordSkips | googleflights_auto.py:124-130 | a listing is skipped exactly when its price text has no currency amount or its airline is "", "N/A" or all digits. A kept record carries the extracted airline and price |
| Records.BuildRecordWellFormed | googleflights_auto.py:117-140 | every kept record is well formed: the price display starts with a currency sign and has no space, and the airline, duration and stops are single stripped lines |
| Records.Accepted | googleflights_auto.py:109-140 | `flight_data` after the loop: the records of the listings that are not skipped, never more of them than listings |
| Records.AcceptedSnoc | googleflights_auto.py:129-140 | reading one more listing appends its record, unless the listing is skipped |
| Records.AcceptedStep | googleflights_auto.py:109-140 | the same step, stated for the `i`-th listing of the list |
| Records.AcceptedWellFormed | googleflights_auto.py:109-140 | every record in `flight_data` is well formed |
| Records.AcceptedSource | googleflights_auto.py:109-140 | every record comes from a listing that was not skipped |
| Records.AcceptedComplete | googleflights_auto.py:109-140 | every listing that is not skipped has its record kept |
| Records.AcceptedInOrder | googleflights_auto.py:109-140 | the records appear in listing order |
| Records.BuildRecords | googleflights_auto.py:109-140 | the loop over `flights[:20]` produces the records of the first twenty listings, in order, without the skipped ones |
| Records.ReadListing | googleflights_auto.py:110-140 | one pass of the loop body extends the records of the listings read so far to one more listing |
| Dedup.KeyOf | googleflights_auto.py:146 | the key of a record: airline, departure, arrival and price display |
| Dedup.KeySetSnoc | googleflights_auto.py:146-148 | adding a record to the list adds its key to the set of keys seen |
| Dedup.FirstOccurrences | googleflights_auto.py:143-149 | the filter never lengthens the list |
| Dedup.DedupRecords | googleflights_auto.py:143-149 | the `seen` loop keeps the first record of each key, in input order |
| Dedup.DedupKeepsKeys | googleflights_auto.py:143-149 | no key is lost |
| Dedup.DedupUnique | googleflights_auto.py:143-149 | no two kept records share a key |
| Dedup.DedupFirsts | googleflights_auto.py:143-149 | the output is a subsequence of the input, and no record before a kept one has its key |
| Dedup.DedupOfUnique | googleflights_auto.py:143-149 | the filter changes nothing when keys are already distinct |
| Dedup.DedupIdempotent | googleflights_auto.py:143-149 | filtering twice is filtering once |
| Ranking.SortByPrice | googleflights_auto.py:151 | `sorted(..., key=price_number)` returns as many records as it is given; the lemmas below state the order and stability |
| Ranking.SortSorted | googleflights_auto.py:151 | the sorted list is ordered by price and is a permutation of its input |
| Ranking.SortStable | googleflights_auto.py:151 | records of equal price keep their input order |
| Ranking.SortSource | googleflights_auto.py:151 | every sorted entry is an entry of the input |
| Ranking.SortedUnique | googleflights_auto.py:151 | two price-ordered lists with the same records of each price, in the same order, are equal |
| Ranking.SortCharacterized | googleflights_auto.py:151 | any price-ordered arrangement that keeps the order of equal prices is the result of the stable sort |
| Ranking.Columns | googleflights_auto.py:160-165 | a row has one cell per header column |
| Ranking.DrawTable | googleflights_auto.py:152-166 | there is no table exactly when there are no records. Otherwise it has the six-column header and one row per record for the first min(10, n) records, in order, each row holding airline, price, duration, stops, departure and arrival |
| Ranking.TableHoldsCheapest | googleflights_auto.py:161 | every record left out of the table costs at least as much as every row shown |
| Normalize.NormalizeSpacing | googleflights_auto.py:180-197 | `normalize_spacing` maps "" to "" and returns text with no whitespace at either end |
| Normalize.SubAllConcat | googleflights_auto.py:184-196 | running a chain of substitutions in two parts is running it whole |
| Normalize.SpacingRulesKeepCore | googleflights_auto.py:184-196 | each of the ten substitutions changes only whitespace and commas |
| Normalize.NormalizeKeepsCore | googleflights_auto.py:180-197 | only whitespace and commas differ between the input and the output; every other character survives, in order |
| Normalize.NormalizeIntroducesOnly | googleflights_auto.py:180-197 | the only characters the repair can add are the space and the comma |
| Normalize.NormalizeSeparates | googleflights_auto.py:188-197 | in the output no lower-case letter or digit stands directly before an upper-case letter |
| Normalize.QuietRule | googleflights_auto.py:184-196 | on upper-case letters and single spaces without AM/PM, every substitution except `([A-Z]{3})([A-Z])` finds nothing |
| Normalize.PlainCapsNormalize | googleflights_auto.py:180-197 | on such text the repair is that one substitution followed by `strip` |
| Normalize.NotIdempotent | googleflights_auto.py:190 | "ABCDEFGH" becomes "ABC DEFG H", and a second pass gives "ABC DEF G H": the repair is not idempotent |
| Normalize.LowerQuiet | googleflights_auto.py:184-193 | on text without upper-case letters, the AM/PM, letter-case and "Airport " substitutions find nothing |
| Normalize.MinSplit | googleflights_auto.py:194 | `replace("min", " min")` on `p + "min" + q` gives the result for `p`, then " min", then the result for `q`, for any `p` and `q` |
| Normalize.NoMinutes | googleflights_auto.py:194 | text without an "m" is not changed by `replace("min", " min")` |
| Normalize.SingleSpaces | googleflights_auto.py:196 | `replace("  ", " ")` leaves text with no two spaces in a row unchanged |
| Normalize.MinutesExample | googleflights_auto.py:180-197 | "5h30min" gives "5h30 min" |
| Cleanup.ArtifactRulesAscii | googleflights_auto.py:207-222 | every artifact replacement writes ASCII text only |
| Cleanup.CleanText | googleflights_auto.py:203-225 | a cleaned value has no whitespace at either end |
| Cleanup.CleanTextRemoves | googleflights_auto.py:207-225 | a non-ASCII character that one replacement deletes or turns into ASCII is absent from the cleaned value |
| Cleanup.CleanTextRemovesAll | googleflights_auto.py:207-225 | no cleaned value contains Â, Ã, U+202F, U+00A0, †, ¤, ‰, œ, ”, “, ‘, ’ or U+FFFD |
| Cleanup.CleanTextSeparates | googleflights_auto.py:225 | a cleaned value has no lower-case letter or digit directly before an upper-case letter |
| Cleanup.ChainDeletes | googleflights_auto.py:207-222 | the one-character text "c" is emptied by a chain whose first replacement of `c` deletes it |
| Cleanup.CleanupEmptiesAirline | googleflights_auto.py:203-225 | the airline "’" passes the filter of line 129, and clean-up turns it into "" |
| Cleanup.Set | googleflights_auto.py:203 | writing `f[k]` changes that field only and keeps the price |
| Cleanup.CleanField | googleflights_auto.py:202-225 | one pass of the inner loop keeps `price` and `price_number` |
| Cleanup.CleanFieldStep | googleflights_auto.py:202-225 | one pass of the inner loop changes only the field it visits, and only when that field is non-empty, to its cleaned value |
| Cleanup.CleanRecord | googleflights_auto.py:201-225 | the inner loop over the five keys keeps `price` and `price_number` |
| Cleanup.CleanFieldsGet | googleflights_auto.py:201-225 | after the inner loop over distinct keys, each visited non-empty field is cleaned from its own value, the other fields are unchanged, and the price is kept |
| Cleanup.CleanRecordFields | googleflights_auto.py:200-225 | clean-up keeps `price` and `price_number`, and cleans each of the five text fields once when it is non-empty |
| Cleanup.CleanRecordRemoves | googleflights_auto.py:200-225 | no field of a cleaned record holds a character the replacements remove |
| Cleanup.CleanRecordAt | googleflights_auto.py:201-225 | the inner loop rewrites record `i` into its cleaned form and touches no other record |
| Cleanup.CleanRecords | googleflights_auto.py:200-225 | the outer loop cleans every record in place, keeping their number and order |
| Pipeline.Ranked | googleflights_auto.py:109-151 | at most twenty records are ranked |
| Pipeline.RankListings | googleflights_auto.py:109-151 | reading, filtering, de-duplicating and sorting the listings gives the ranked records |
| Pipeline.CleanAll | googleflights_auto.py:200-225 | the clean-up of the ranked records keeps their number and order and cleans each one |
| Pipeline.ScrapeFlights | googleflights_auto.py:109-227 | the result is the ranked records, each cleaned. The table is empty exactly when there are no records, and otherwise shows the first min(10, n) ranked records as read from the page |
| Pipeline.SortKeepsUnique | googleflights_auto.py:151 | sorting keeps the keys distinct |
| Pipeline.RankedShape | googleflights_auto.py:143-151 | the ranked records are ordered by price, no two share a key, and there are at most twenty |
| Pipeline.RankedPermutation | googleflights_auto.py:143-151 | the ranked records are a permutation of the de-duplicated records, and records of equal price keep their de-duplicated order |
| Pipeline.ResultsOrdered | googleflights_auto.py:151-227 | clean-up keeps the price order of the returned records |
| Pipeline.RankedSource | googleflights_auto.py:109-151 | every ranked record is the record of one of the first twenty listings that was not skipped |
| Pipeline.RankedComplete | googleflights_auto.py:109-151 | every listing among the first twenty that is not skipped has its key among the ranked records |
| Pipeline.SortedKeys | googleflights_auto.py:151 | sorting keeps the set of keys |

## Left out

- Browser automation is not modelled (googleflights_auto.py:69-97 and 110-115): Playwright, navigation, waiting, scrolling and the CSS selectors. A listing is given as the six elements its selectors found (`Records.Listing`). An element is absent, present with text, or failing to give its text (`Extract.Element`).
- The prompts, month parsing and current-date fallback (googleflights_auto.py:50-67) are not modelled: they are interactive input and the clock.
- The prints, the JSON and text files written at googleflights_auto.py:167-175, the browser shutdown and the CLI entry point are not modelled: they are I/O.
- The other files of the repository (the web API, agent wrappers, runner script and front end) are not part of this model.
- The latin-1 encode and UTF-8 decode with "ignore" (googleflights_auto.py:205-206) are a parameter `recode: string -> string` of any total function. Codecs are not modelled.
- Texttable's drawing is not modelled. The table is its header and rows (`Ranking.Table`), and `NoTable` stands for the empty text. Column widths, borders and `max_width=0` are left out.
- `\d` and `str.isdigit` are modelled as the ASCII digits. Python's versions also accept non-ASCII decimal digits. `[A-Z]`, `[a-z]` and `[A-Za-z]` are ranges of code points in Python too, so the model is exact for them.
- Text.Lines: splits at each line-break character separately. Python also treats "\r\n" as one break and returns no line for "". These differences only add or remove blank lines, which both users discard or never reach.
- Extract.FirstLine: requires text that is empty or holds a non-whitespace character. On other text the source raises IndexError. That outcome is not modelled; `get_text` never returns such text (`Records.GetTextDefined`).
- Extract.ExtractPrice: the value is a Python `int`, modelled as an unbounded `int` with no width.
- Records.BuildRecords: does not itself state the bound of twenty records. `Pipeline.Ranked` and `Pipeline.RankedShape` state it.
