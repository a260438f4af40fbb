# Flashcards: a verified model of the study logic

The flashcard app reads CSV files of question and answer pairs and keeps the
cards in one list. The learner then studies them in one of three modes:
sequential review, shuffled review, or a typed quiz. In the quiz, a
token-overlap score colours the learner's answer.

This project models the four self-contained pieces of `app.js` in Dafny and
proves what they promise:

- **`Csv`** models `parseCSVContent`:
  - the `\r?\n` line split and the blank-line skip;
  - the two-group regular expression, including quoted runs, doubled quotes and the longest-match choices of a backtracking matcher;
  - the three cleaning steps and the non-empty test.
- **`CsvExamples`** states what the parser gives on sample lines.
- **`Grading`** models `calculateSimilarity` and the three colour tiers of `checkQuizAnswer`. The score is an exact `real`, and the tiers are also stated on integers by cross-multiplying.
- **`Shuffle`** models `shuffleArray`, the in-place Fisher–Yates shuffle on an `array`. The random draws are supplied as a sequence of choices with `0 <= js[i] <= i`.
- **`CardStore`** models the store as the class `Store`:
  - fields `flashcards`, `files` and an id counter;
  - the per-file append of `handleFileUpload`, `removeFile`, `clearFiles` and the shuffle of the card list.
  
  JavaScript removes cards by reference. Here each card carries an `id`, and two cards are the same object exactly when their ids are equal. The store invariant `Inv` says:
  - the flashcards equal, as a multiset, the cards of all files put together;
  - every entry's `count` is its number of cards;
  - every entry has at least one card;
  - every card of an entry is well formed (non-empty, trimmed question and answer);
  - every card's id lies below the id counter;
  - no card belongs to two files.
- **`Session`** models the study session as the class `StudySession`:
  - fields for the mode, the position, the flipped flag, the learned positions and the confidence counters;
  - one method per handler, each proved against a pure transition on `State`;
  - the key table of `handleKeyboard` as the function `Dispatch`.
- **`Text`** models JavaScript `trim`, the `\s` class and `toLowerCase`.
- **`Wrappers`** holds the `Option` type.

## Behaviour of the code to keep in mind

- **Extra columns.** A line `a,b,c` gives the question `a` and the answer `b`: the second group stops at the next comma, and later columns are dropped (`ThreeColumnsExample`).
- **Tier boundaries.** Both tier bounds are strict: green needs a score above 0.7, yellow a score above 0.4 (`TierOf`, `TierCrossMultiplied`).
- **Expected answer.** The typed answer is trimmed and lower-cased; the expected answer is only lower-cased (`Grade`).
- **Next card.** `nextCard` moves only while a later card exists, so it never reaches the completion position (`NextStaysInRange`).
- **Rating past the end.** A rating that reaches the end returns from `updateCard` before the card is turned back. The flag stays set, so keys 1–4 and the right arrow go on rating. The position then passes the number of cards, and a position with no card is marked learned (`RatingPastTheEnd`). The position is therefore not bounded by the number of cards, and the model claims no such bound.

## Model

| member | source | states |
|---|---|---|
| Text.Trim | app.js:159 | the result has no white space at either end; it is empty exactly when the input is all white space; it is no longer than the input |
| Text.TrimStart | app.js:159 | the result is a suffix of the input; everything dropped is white space; the result does not start with white space |
| Text.TrimEnd | app.js:159 | the result is a prefix of the input; everything dropped is white space; the result does not end with white space |
| Text.TrimIdempotent | app.js:165-166 | trimming a trimmed text changes nothing |
| Csv.Lines | app.js:156 | `split(/\r?\n/)` gives at least one piece, no piece holds a line feed, and a text without a line feed is its own single piece |
| Csv.LinesConsCRLF | app.js:156 | a carriage return before a line feed is part of the break: the line before `\r\n` is cut without it |
| Csv.LinesCount | app.js:156 | a text with k line feeds splits into exactly k + 1 pieces |
| Csv.IndexOf | app.js:162 | the first position of a character: it holds the character, and no earlier position does |
| Csv.ClosingCorrect | app.js:162 | the scanner finds the greatest closing quote of a quoted run, and finds one whenever one exists |
| Csv.FirstFieldEnd | app.js:162 | the first group ends at a comma: after a quoted run when one is followed by a comma, else at the first comma |
| Csv.FirstFieldQuoted | app.js:162 | when a quoted run is followed by a comma, the first group is exactly that run |
| Csv.FirstFieldUnquoted | app.js:162 | when no quoted run is followed by a comma, the first group is the text before the first comma |
| Csv.SecondFieldQuoted | app.js:162 | when a quoted run starts the second group, the group is the longest such run, and no longer run exists |
| Csv.SecondFieldUnquoted | app.js:162 | without a quoted run, the second group holds no comma and ends at a comma or at the end of the line |
| Csv.Fields | app.js:162-164 | the pattern matches exactly when the line holds a comma |
| Csv.QuoteFreeFields | app.js:162 | on a line without quotes, the groups are the text before the first comma and the text up to the second comma or the end |
| Csv.StripQuotes | app.js:165-166 | a leading quote and a trailing quote are each dropped on their own, whether or not the field is a quoted run; nothing else is removed |
| Csv.Unescape | app.js:165-166 | un-escaping never lengthens the text and drops only quotes: every other character occurs as often as before |
| Csv.Clean | app.js:165-166 | a cleaned field is trimmed |
| Csv.CleanLoneQuote | app.js:165-166 | a quote-free field with one stray quote at its start or at its end cleans to the trimmed field |
| Csv.CleanQuoteFree | app.js:165-166 | on a field without quotes, cleaning only trims |
| Csv.UnescapeLoneQuote | app.js:165-166 | a quote not followed by another quote is kept as it is |
| Csv.UnescapeDoubled | app.js:165-166 | a doubled quote becomes one quote |
| Csv.UnescapeEscape | app.js:166 | turning `""` back into `"` undoes the doubling of quotes |
| Csv.CleanQuote | app.js:165-166 | cleaning a quoted, escaped trimmed text gives that text back |
| Csv.ParseLine | app.js:159-171 | a line gives a card only if it holds a comma and is not blank, and every card has a non-empty, trimmed question and answer |
| Csv.NoCommaNoCard | app.js:159-164 | a blank line, a white-space-only line and a line without a comma give no card |
| Csv.QuoteFreeLine | app.js:162-170 | a quote-free line gives the trimmed first and second columns when neither is blank, and nothing otherwise; later columns are dropped |
| Csv.ParseLines | app.js:158-172 | the line loop gives no more cards than lines, all well formed |
| Csv.Parse | app.js:154-175 | `parseCSVContent` is total and every card it returns is well formed |
| Csv.CardsAtMostLines | app.js:154-175 | a file gives at most one card more than it has line feeds |
| Csv.ParseCons | app.js:156-172 | a file is parsed line by line: a first line, then the rest |
| Csv.ParseConsCRLF | app.js:156-172 | a first line ended by `\r\n` is parsed without its carriage return, then the rest |
| Csv.ParseLineRender | app.js:162-170 | every well-formed row, written as two quoted fields, parses back to itself |
| Csv.FieldsOfQuotedPair | app.js:162 | two quoted runs joined by a comma are captured exactly, whatever commas and doubled quotes they hold |
| Csv.ParseSerialize | app.js:154-175 | round trip: a file written from well-formed rows without line breaks parses back to exactly those rows, in order |
| CsvExamples.EscapedQuoteExample | app.js:162-166 | `"Say ""hi""","hello"` gives the question `Say "hi"` and the answer `hello` |
| CsvExamples.QuotedPairExample | app.js:162-169 | two quoted fields without inner quotes, whose texts are trimmed and non-empty, give exactly those texts |
| CsvExamples.QuotedCommaExample | app.js:162-166 | a comma inside a quoted first field stays in the question |
| CsvExamples.ThreeColumnsExample | app.js:162-169 | `a,b,c` gives the question `a` and the answer `b` |
| CsvExamples.MissingAnswerExample | app.js:165-168 | `question,` gives no card |
| CsvExamples.NoCommaExample | app.js:162-164 | `question` gives no card |
| CsvExamples.SpacesLineSkipped | app.js:156-159 | a line of white space, ended by `\n` or `\r\n`, adds nothing to what the rest of the file gives |
| CsvExamples.EmptyLineSkipped | app.js:159 | an empty line adds nothing to what the rest of the file gives |
| CsvExamples.SingleLetterRow | app.js:154-175 | a one-line file `x,y` gives exactly one card |
| Grading.Words | app.js:405-406 | `split(/\s+/)` gives at least one token, and no token holds white space |
| Grading.WordsSplit | app.js:405-406 | a word followed by a run of white space is cut off as one token, and splitting resumes after the run |
| Grading.WordsFirstEmpty | app.js:405-406 | the first token is empty exactly when the text is empty or starts with white space |
| Grading.WordsLastEmpty | app.js:405-406 | the last token is empty exactly when the text is empty or ends with white space |
| Grading.EmptyWordIff | app.js:405-406 | an empty token occurs exactly when the text is empty or has white space at an end |
| Grading.WordsContent | app.js:405-406 | the tokens, joined, are exactly the non-space characters of the text, in order |
| Grading.WordsOfTrimmed | app.js:405-406 | a non-empty text without surrounding white space splits into non-empty words only |
| Grading.SingleWord | app.js:405-406 | a text is its own single word exactly when it holds no white space |
| Grading.IncludesAt | app.js:410 | `includes` holds exactly when the word occurs at some position |
| Grading.MatchCount | app.js:408-413 | the count is at most the number of words; it equals it exactly when every word matches, and it is zero exactly when none does |
| Grading.MatchCountAppend | app.js:408-413 | the count adds up over the words of the first answer; with the one-word case above it is the number of matched words |
| Grading.Similarity | app.js:402-416 | the score lies between 0 and 1, and it is 0 when either answer is empty |
| Grading.Ratio | app.js:415 | the quotient is exact and at most one |
| Grading.RatioAbove | app.js:387-389 | a fraction exceeds n/k exactly when the cross-multiplied integers compare so |
| Grading.TierCrossMultiplied | app.js:387-393 | green exactly when 10m > 7d, yellow exactly when 4d < 10m <= 7d, red exactly when 10m <= 4d (m matches out of d words) |
| Grading.FullScore | app.js:409-415 | the score is 1 exactly when every word of the first answer matches and the first answer has at least as many words as the second |
| Grading.SelfSimilarity | app.js:402-416 | an answer compared with itself scores 1 |
| Grading.TierOf | app.js:387-393 | green exactly above 0.7, yellow exactly in (0.4, 0.7], red exactly at or below 0.4 |
| Grading.Grade | app.js:376-393 | a blank typed answer or an empty expected answer is graded red |
| Grading.EmptyWordMatchesAll | app.js:405-411 | an expected answer with surrounding white space (or none at all) yields an empty word, and that word matches every typed word |
| Grading.ExactAnswerIsGood | app.js:376-393 | typing the expected answer, up to surrounding white space, is graded green |
| Shuffle.Swap | app.js:483 | the swap exchanges the two positions and leaves every other position alone |
| Shuffle.ShufflePermutes | app.js:480-486 | for any valid choices, the shuffle is a permutation of its input |
| Shuffle.RoundsPermute | app.js:481-484 | every run of rounds keeps the multiset of elements |
| Shuffle.RoundsKeepAbove | app.js:481-484 | the rounds from `i` down never touch a position above `i` |
| Shuffle.LastPlaced | app.js:481-483 | the last position ends holding the element that the first draw picked |
| Shuffle.IdentityChoices | app.js:482-483 | drawing `j = i` every time leaves the array as it was |
| Shuffle.ShuffleArray | app.js:480-486 | the in-place loop leaves the array holding the shuffle of its old contents |
| CardStore.StampIdsFrom | app.js:128-135 | the cards made for a file carry pairwise distinct ids drawn from the counter upwards, so none is a card made before |
| CardStore.Without | app.js:222 | the filter keeps exactly the cards whose id is not among the removed ones |
| CardStore.WithoutAppend | app.js:222 | filtering a concatenation filters each part in order, so the kept cards keep their relative order |
| CardStore.WithoutCount | app.js:222 | filtering keeps every copy of a kept card and drops every copy of a removed one |
| CardStore.AddThenRemove | app.js:130-140 | appending a file's new cards and then removing them by identity gives back the old list |
| CardStore.CountIsTotal | app.js:135-139 | under the invariant, the number of cards is the sum of the files' counts |
| CardStore.InAllCards | app.js:139 | a card is among all cards exactly when some file holds it |
| CardStore.AppendKeepsInv | app.js:130-140 | appending a file that gave cards keeps the store invariant |
| CardStore.RemoveKeepsInv | app.js:217-225 | removing a file and its cards keeps the store invariant |
| CardStore.RemoveKeepsCards | app.js:221-225 | after the removal, the cards left equal, as a multiset, the cards of the other files |
| CardStore.Store.constructor | app.js:4-5 | the store starts empty and valid |
| CardStore.Store.AddFile | app.js:126-140 | a file that parses to no card changes nothing; otherwise its entry is appended, with count equal to its number of cards, and its new cards follow the old ones; the invariant is kept |
| CardStore.Store.AddRows | app.js:130-140 | the append step itself: the entry and its cards are appended and the invariant is kept |
| CardStore.Store.RemoveFile | app.js:217-228 | exactly the removed file's cards are filtered out, by identity; the entry is spliced out; the invariant is kept |
| CardStore.Store.Clear | app.js:231-236 | no files and no cards are left, and the invariant is kept |
| CardStore.Store.ShuffleCards | app.js:347-348 | the card list becomes its shuffle under the given choices; the files are untouched and the invariant is kept |
| Session.Bump | app.js:361 | exactly the rated confidence's counter goes up by one |
| Session.RateEffects | app.js:360-372 | a rating bumps its own counter by one and no other, marks the position learned exactly when it is not "again", and moves one position on |
| Session.StepConsistent | app.js:360-372 | no handler lets the learned positions outnumber the ratings other than "again" |
| Session.StartConsistent | app.js:249-253 | starting a mode gives a consistent state |
| Session.GoodRun | app.js:360-372 | k "good" ratings move k positions on, count k more "good" and mark those positions learned |
| Session.GoodRunCompletes | app.js:249-253 | after `startMode` on n cards, n "good" ratings reach position n, with `good == n`, no other counter moved, and exactly n learned positions |
| Session.RatingPastTheEnd | app.js:297-300 | the rating that reaches the end leaves the card flipped, so the digit keys rate again, past the last card |
| Session.PrevAtStart | app.js:331-336 | `prevCard` does nothing on the first card |
| Session.NextStaysInRange | app.js:338-344 | `nextCard` never reaches the completion position, and it does nothing on the last card |
| Session.NextThenPrev | app.js:331-344 | going forward and then back returns to the same card, showing its question |
| Session.ShuffleKeepsRatings | app.js:347-351 | `shuffleCards` goes back to the first card but keeps the counters, the learned set and the mode |
| Session.FlipTwice | app.js:278-282 | outside quiz mode, flipping twice changes nothing |
| Session.QuizNeedsCheck | app.js:278-282 | in quiz mode, flipping never turns an unflipped card over, while checking an answer does |
| Session.CheckKeepsProgress | app.js:375-384 | checking an answer leaves the position, the counters, the learned set and the mode as they were |
| Session.ResetClears | app.js:441-453 | `goBack` clears the mode, the position, the learned set and the counters, and doing it twice is doing it once |
| Session.TextareaOnlyChecks | app.js:493-498 | inside the answer box only Ctrl+Enter acts, and it checks the answer |
| Session.Dispatch | app.js:489-532 | without a mode no key does anything; Ctrl+Enter in the answer box is exactly what checks; a key rates only a flipped card, outside the answer box, in a mode |
| Session.DigitsRate | app.js:516-527 | keys 1 to 4 rate a flipped card again, hard, good and easy, and do nothing on an unflipped one |
| Session.StudySession.constructor | app.js:2-7 | the session starts with no mode, at position 0, with nothing learned or rated |
| Session.StudySession.UpdateCard | app.js:296-313 | below the end the card is turned back to its question; at or past the end the state stays as it was |
| Session.StudySession.StartMode | app.js:249-275 | the state becomes the start transition; a random mode shuffles the card list under the choices, another mode leaves it alone; the files are untouched |
| Session.StudySession.FlipCard | app.js:278-293 | the flag toggles, except on an unflipped card in quiz mode |
| Session.StudySession.PrevCard | app.js:331-336 | the state becomes the `prevCard` transition and stays consistent |
| Session.StudySession.NextCard | app.js:338-344 | the state becomes the `nextCard` transition and stays consistent |
| Session.StudySession.ShuffleCards | app.js:347-357 | the card list becomes its shuffle, and the state becomes the `shuffleCards` transition |
| Session.StudySession.RateCard | app.js:360-372 | the state becomes the rating transition and stays consistent |
| Session.StudySession.CheckQuizAnswer | app.js:375-399 | the card shows its answer, and the returned tier grades the trimmed, lower-cased input against the lower-cased expected answer; with no card at the position nothing changes |
| Session.StudySession.GoBack | app.js:441-453 | the state becomes the reset transition; the cards are kept |
| Session.StudySession.Restart | app.js:475-477 | `restart` is `goBack` |
| Session.StudySession.GoToUpload | app.js:456-472 | the session is reset, and the store is left with no files and no cards |
| Session.StudySession.HandleKeyboard | app.js:489-532 | the state becomes the transition of the handler that the key table picks; a grade is returned exactly when that handler is the check and a card is shown, and it is the check's grade |

## Left out

- **UI wiring.** DOM lookups, `style.display` toggles, the `innerHTML` file list, focus, listener registration in `init`, and the colour-reset and button-animation timers are left out.
- **LaTeX rendering.** `renderLatex` and `renderAllLatex` are a foreign call into KaTeX, run after a `setTimeout`. They are left out.
- **Theme.** `toggleTheme` and the `localStorage` theme preference are persistence plumbing and are left out.
- **Asynchronous reading.** `FileReader` and the `filesProcessed` counter of `handleFileUpload` are asynchronous I/O. Only the per-file `onload` step is modelled, as `Store.AddFile`. Files may complete in any order, and any sequence of `AddFile` calls is covered.
- **Progress display.** `updateProgress` is display-only floating-point arithmetic (`Math.round`) and gives NaN on an empty list, so it is left out. `showModeSelection` only displays and is left out too.
- **Randomness.** `Math.random` in `shuffleArray` is replaced by a sequence of supplied choices. Any run of the original corresponds to some valid choice sequence.
- **Floating point.** `calculateSimilarity` divides in IEEE-754 doubles. The model uses exact reals. The tiers are proved on integers (`TierCrossMultiplied`), but a double quotient that rounds onto 0.7 or 0.4 is not modelled.
- **Grading.Similarity:** `str.includes` and the `\s` class are modelled exactly on code points, but `toLowerCase` is modelled on ASCII letters only (`Text.ToLower`). Non-ASCII case mapping, including mappings that change the length of a string, is not captured.
- **Text.Trim:** the white-space set is the exact ECMAScript WhiteSpace and LineTerminator set, but strings are sequences of code points, not UTF-16 code units.
- **CardStore.Store.RemoveFile:** it requires an index inside the file list. Out of range, the original reads `.cards` of `undefined` and throws. The remove buttons only ever pass indices of listed files.
- **Session.StudySession.CheckQuizAnswer:** with no card at the position, the original throws a `TypeError` before it changes anything. The model returns `None` and leaves the state unchanged. The quiz-mode check that hides the button is UI wiring and is not modelled.
- **Session.StudySession.StartMode:** the mode-selection screen is reachable only with at least one card. The model allows any number of cards, and then the completion branch of `updateCard` applies.
- **Card identity.** Object identity is modelled by ids drawn from a counter. The counter is not reset by `clearFiles`, so ids are never reused, as object references never are.
