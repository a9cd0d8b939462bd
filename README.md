# Flashcard session model

A Dafny model of the logic of `app.js`, a single-page flashcard tool. It shows a Japanese
sentence, reveals its English translation through a staircase of hints, counts answered
questions, keeps a study timer, and lets the user edit the deck as CSV text.

The model has five modules:

- `Wrappers` (`wrappers.dfy`) holds the `Option` type.
- `Text` (`text.dfy`) holds the JavaScript string calls the page relies on:
  - `trim`, with its whitespace set written out in `IsWs`;
  - `split` on one character;
  - `join`.
- `Csv` (`csv.dfy`) models `saveData`'s line parser and the settings dialog's export:
  - the quote-aware field scan (a method with a loop, proved equal to the function
    `RawFields`);
  - field cleaning;
  - record building;
  - the map-then-filter over the lines;
  - `toCSV` and the line join;
  - the round trip from export to parse.
- `Clock` (`clock.dfy`) models the `mm:ss` timer text and proves that it reads back as the
  minutes and seconds.
- `Flashcards` (`session.dfy`) models the page's global state as a class `Session`:
  - `Valid()` ties the mode to what the English side shows;
  - `showCard`, `showHint`, `showAnswer` and `nextCard` become methods, as do the counter
    and timer resets, the timer tick, the order checkbox and `saveData`;
  - the hint staircase is the function `HintTarget`;
  - the hidden-word list is `HiddenIndices`;
  - the random draws are `Picks`.

`Math.random()` becomes a parameter:
- `ShowHint` takes the sequence of positions drawn from the shrinking hidden list;
- `NextCard` takes the drawn card position.

Each parameter has an in-range precondition.

## Behaviour of the code worth knowing

- **Record ids.** A record's id is its line's position in the trimmed input plus one, and
  that position counts rejected lines too. The ids can therefore have gaps; they are not
  dense positions among accepted lines. `Csv.ParsedLines` states the ids and
  `Csv.AcceptedIncrease` proves that they strictly increase.
- **Acceptance.** A line with two or more fields is accepted even when its fields are empty
  after cleaning: a line holding only `,` gives a record with two empty texts.
- **Empty sentences.** Splitting an empty sentence at spaces gives one empty word, so a
  sentence always has at least one word. The first hint on a card never goes straight to
  the answer. A one-word sentence reveals its word on the first press and shows the answer
  on the second (`Flashcards.HintPresses`).
- **Round trip.** The round trip holds only for texts without a newline, and, when they are
  not quoted, without whitespace at either end. `toCSV` quotes a text holding a newline, but
  `saveData` cuts the input into lines before it looks at quotes. `trim` also drops outer
  whitespace from an unquoted field. `Csv.NewlineLost` works through one case: a record whose
  English text is a single newline comes back with an empty English text.

## Model

| member | source | states |
|---|---|---|
| Text.TrimStartSuffix | app.js:147 | the front trim keeps a suffix of the text and drops only whitespace |
| Text.TrimEndPrefix | app.js:147 | the back trim keeps a prefix of the text and drops only whitespace |
| Text.TrimEnds | app.js:125 | a trimmed text is empty or starts and ends with a non-whitespace character |
| Text.TrimUnchanged | app.js:147 | a text that neither starts nor ends with whitespace is its own trim |
| Text.JoinSplit | app.js:209 | joining the pieces of `split(sep)` with `sep` gives the text back |
| Text.SplitJoin | app.js:125 | splitting a join of separator-free pieces gives the pieces back |
| Text.JoinTrimmed | app.js:326 | a join whose first and last characters are not whitespace is its own trim |
| Csv.ScanLine | app.js:128-144 | the character loop with its `inQuote` flag returns exactly the fields cut at the commas outside quotes (`RawFields`) |
| Csv.InQuoteAppend | app.js:134-135 | the quote flag after a concatenation is the flag after the first part toggled by the flag of the second |
| Csv.JoinRawFields | app.js:132-144 | the scan loses no character: its fields joined with commas are the line |
| Csv.FieldsSplit | app.js:137-144 | a line has at least two fields exactly when it has a comma outside quotes |
| Csv.RawFieldsWithoutQuotes | app.js:132-144 | on a line without quotes the scan is `split(',')` |
| Csv.RawFieldsAppend | app.js:132-144 | after a part with balanced quotes and a comma, the fields of the rest follow the fields of the part |
| Csv.DoubleQuotes | app.js:321 | doubling the quotes never shortens a text and leaves an even number of quotes |
| Csv.DoubleQuotesChars | app.js:321 | doubling the quotes brings in no new character |
| Csv.CollapseDoubleQuotes | app.js:149 | collapsing `""` to `"` from the left undoes the doubling |
| Csv.DoubledOutside | app.js:321 | inside a doubled text, each character other than a quote lies outside quotes |
| Csv.ParseLineAccepts | app.js:146-161 | a line gives a record exactly when it has a comma outside quotes |
| Csv.ParsedLines | app.js:126-161 | one outcome per line, and each record's id is its line position plus one |
| Csv.AcceptedSound | app.js:162 | the filter keeps only records the lines produced, each the record of the line at its id minus one |
| Csv.AcceptedIncrease | app.js:156-162 | the ids of the kept records strictly increase |
| Csv.AcceptedComplete | app.js:162 | every record a line produced is kept |
| Csv.AcceptedAll | app.js:162 | when every line gives a record, the kept records are all of them, in order |
| Csv.ParseLinesStep | app.js:126-162 | one more line adds its record, if it has one, after the records of the earlier lines |
| Csv.ToCsvFieldShape | app.js:319-324 | an exported field has balanced quotes and no comma outside them |
| Csv.CleanToCsv | app.js:146-152 | cleaning the exported field of an exportable text (texts with no newline and, when unquoted, no whitespace at either end) gives the text back |
| Csv.CleanWithinQuotes | app.js:148-149 | cleaning a quoted field strips the outer quotes and collapses `""` |
| Csv.ParseCsvLine | app.js:325 | the exported line of a record with exportable texts (texts with no newline and, when unquoted, no whitespace at either end) parses back to the same two texts, with id index+1 |
| Csv.ExportTrimmed | app.js:125 | the export of a nonempty deck of exportable texts (texts with no newline and, when unquoted, no whitespace at either end) is its own trim |
| Csv.ExportLines | app.js:326 | the lines of the export of a nonempty deck of exportable texts (texts with no newline and, when unquoted, no whitespace at either end) are its record lines |
| Csv.ExportParseRoundTrip | app.js:318-326 | for a deck of exportable texts (texts with no newline and, when unquoted, no whitespace at either end), parsing the export gives one record per record, with the same texts in order and id k+1 for the k-th |
| Csv.NewlineLost | app.js:125-162 | exporting a record whose English text is a newline and saving the export gives back that record with an empty English text |
| Clock.DecimalValue | app.js:95 | `toString` writes only digits, and they stand for the number |
| Clock.DecimalNoLeadingZero | app.js:95 | `toString` writes no leading zero and one digit exactly below ten |
| Clock.Pad2Value | app.js:95 | `padStart(2, '0')` keeps the digits' value |
| Clock.TimerTextRoundTrip | app.js:92-96 | the timer text reads back as the whole minutes and the remaining seconds |
| Clock.TimerTextSeconds | app.js:94-95 | the seconds part is two digits after a `:` with a value below 60 |
| Clock.TimerTextInjective | app.js:92-96 | different second counts give different texts |
| Flashcards.HintTargetBounds | app.js:215-228 | the first press aims at the ceiling of 33%; a later press aims at the ceiling of 66% exactly while fewer than 66% are visible; every target is above the visible count and at most the word count |
| Flashcards.HintPresses | app.js:216-225 | from a fresh card the answer comes on the third press, or on the second for one word |
| Flashcards.HiddenIndicesSpec | app.js:231-236 | the hidden list holds each unrevealed position once and, with the revealed ones, accounts for every word |
| Flashcards.HiddenCount | app.js:231-236 | the hidden list has one entry per word not revealed |
| Flashcards.PicksWithin | app.js:240-245 | the draws reveal only hidden positions |
| Flashcards.PicksCount | app.js:240-245 | from a list without repeats the draws reveal `wanted` different positions, or all of them |
| Flashcards.HintReveals | app.js:228-245 | a press aiming at `target` visible words ends with exactly `target` visible words, all of them words of the sentence |
| Flashcards.RenderReadsSentence | app.js:248-254 | the hint's words joined with spaces read the sentence, and the blurred words are exactly the hidden ones |
| Flashcards.NextIndex | app.js:278-286 | in order, the next card, wrapping to the first; at random, the drawn card unless it repeats the current one in a deck of two or more, and never the current card then |
| Flashcards.Session.constructor | app.js:111-122 | the deck is the stored one or the default deck; random order is on exactly when the stored text is `true`; the first card shows as a question; the counters are zero |
| Flashcards.Session.ShowCard | app.js:177-204 | with an empty deck nothing changes; otherwise the card shows as a question with its sentence blurred and nothing revealed |
| Flashcards.Session.ShowHint | app.js:206-226 | when the staircase has no target, the answer shows and the counter grows by one; otherwise the revealed set grows from the old set to exactly the target size by the drawn positions |
| Flashcards.Session.RevealHint | app.js:227-257 | lists the hidden positions, reveals drawn ones up to the target count, and shows the hint for the new set |
| Flashcards.Session.RevealDrawn | app.js:238-245 | the draw loop adds exactly the drawn positions (`Picks`) to the revealed set and changes nothing else |
| Flashcards.Session.ShowAnswer | app.js:260-275 | the sentence shows plain, the mode is answer, and the counter grows by exactly one |
| Flashcards.Session.NextCard | app.js:277-288 | the index becomes `NextIndex` of the old one and the new card shows as a question |
| Flashcards.Session.ResetCounter | app.js:105-108 | the counter is zero and nothing else changes |
| Flashcards.Session.Tick | app.js:55-58 | the study time grows by one second and nothing else changes |
| Flashcards.Session.ResetTimer | app.js:68-72 | the study time is zero, shown as `00:00` |
| Flashcards.Session.SetRandomOrder | app.js:348-351 | the order setting follows the checkbox |
| Flashcards.Session.SaveData | app.js:124-174 | when the parsed text has records they replace the deck and its first card shows as a question; otherwise nothing changes |
| Flashcards.SaveExported | app.js:316-335 | saving the export of a deck whose texts survive export gives the same texts in the same order, renumbered 1..n (gaps in the ids close), and shows its first card as a question; the order setting, the study time and the question counter are unchanged |

## Left out

- Presentation is left out: CSS classes, `innerHTML` and `textContent`, the fade-in
  animation and button visibility (app.js:184-203, 256-257, 264-270). The hint's HTML is
  modelled as a sequence of (word, blurred) pairs.
- `localStorage`, `JSON.parse` and `JSON.stringify` are left out (app.js:112-121, 166, 350).
  The constructor takes what was stored as parameters.
- `Flashcards.Session.constructor`: requires a stored deck to be nonempty. Only `saveData`
  writes the deck, and only with at least one record. Arbitrary stored JSON is not modelled.
- The following are I/O with no effect on the modelled state, so they are left out:
  - `FileReader` (app.js:337-346);
  - speech output (app.js:291-308);
  - `alert` and `toggleModal` (app.js:169-172, 364-370);
  - event wiring (app.js:311-362);
  - the question counter's text (app.js:99-103).
- The interval lifecycle is left out (`startTimer`, `stopTimer`, `toggleTimer`,
  `updateTimerIcons`, app.js:53-90). Only the tick's increment of `studySeconds`
  (`Session.Tick`) and the timer text are modelled.
- `Math.random()` calls become caller-supplied positions (app.js:241, 279).
- The literals `0.33` and `0.66` are exact rationals. The model uses the integer forms
  `(33t+99)/100`, `(66t+99)/100` and `100r < 66t`. It does not model binary floating-point
  rounding of `t * 0.33` and `t * 0.66`.
- JavaScript strings are UTF-16 code units, while the model's `char` is a Unicode scalar
  value. A character outside the Basic Multilingual Plane counts once here and twice in
  JavaScript. No modelled property depends on that count.
- `showCard`'s index parameter is always `currentIndex`, so `ShowCard` reads the field.
- `Csv.ExportParseRoundTrip`: requires every text to be newline-free and, when unquoted,
  to have no whitespace at either end. The reasons are given above.
