# who-the-chess in Dafny

who-the-chess is a guessing game: the player sees facts about a top chess
grandmaster one hint at a time and tries to name the player. This project
models the parts of it that carry logic and proves properties of them.

- **The two ingestion pipelines.** `src/data-processing` and `src/sqlite-generator`
  both read a dump of knowledge-base statements (subject, predicate label, value,
  optional qualifier) and fold it into one record per player, in place in a hash map.
  - `Dump` states what the finished record of each player holds, field by field,
    as a function of the whole input.
  - `DataProcessing.CollectPlayers` and `SqliteGenerator.CollectPlayers` are the
    loops. They are proved to build exactly that map, or to stop at the first row
    whose `unwrap` panics.
  - `Rfc3339` is the spelling of `parse_from_rfc3339`'s input that the model accepts.
  - `Text` holds the decimal, lower-casing and splitting helpers.
- **The web backend** (`src/backend/main.rs`), once a request is decoded, in module `Backend`:
  - which catalog entry a game id selects;
  - which hint lines a request for hint `n` shows;
  - when a game is resolved;
  - the name prediction behind the search box;
  - the answer check.
- **The browser's game bookkeeping** (`html/logic.js`) is the class `Logic.GameLogic`.
  It holds the current game id, the hint counter and the score, and keeps the
  invariant that correct answers never exceed answers given.

The server keeps no per-game state. Each request carries its game id and hint
number (`GameRequest`, src/backend/main.rs:46-49), and the browser counts the hints.

A panic in a pipeline (an `unwrap` of a missing qualifier, an unparsable date
or rating) ends the run. The model returns it as `Failure(Abort(index, kind))`
for the first such row.

## Model

| member | source | states |
|---|---|---|
| Text.NatToString | src/data-processing/main.rs:94-98 | `to_string` of an unsigned number: non-empty, digits only, no leading zero |
| Text.IntToString | src/backend/main.rs:101 | `to_string` of a signed year: non-empty, starts with `-` exactly when negative |
| Text.ParseIntToString | src/backend/main.rs:101 | the text of a signed year is `-` for a negative year followed by the digits of its magnitude, which read back as that magnitude |
| Text.NatToStringValue | src/data-processing/main.rs:94-98 | the decimal text of `n` has value `n` |
| Text.ParseDecimalNatToString | src/data-processing/main.rs:94-98 | the decimal text of `n` parses back to `n` |
| Text.ParseU32NatToString | src/data-processing/main.rs:73 | `parse::<u32>` reads the decimal text of any `u32` back to that value |
| Text.ParseDecimal | src/data-processing/main.rs:94-98 | the reader behind the read-back of a dotted birth date: it succeeds exactly on a non-empty all-digit string |
| Text.ParseU32 | src/data-processing/main.rs:73 | `parse::<u32>` succeeds exactly on an optional `+` followed by a non-empty run of digits whose value is below 2^32, leading zeros allowed, and then yields that value |
| Text.ParseU32Examples | src/sqlite-generator/main.rs:79 | "+2700" reads as 2700, "0002700" as 2700 and "+7" as 7; "+", "", "-0" and "4294967296" (2^32) are rejected |
| Text.StartsWithIff | src/backend/main.rs:236-239 | `starts_with`: the prefix is no longer than the string and agrees with it character by character |
| Text.Lower | src/backend/main.rs:232 | lower-casing keeps the length and maps each character on its own |
| Text.LowerEqualIff | src/backend/main.rs:267-268 | two names have equal lower-case forms exactly when they are equal ignoring case, character by character |
| Text.LowerIdempotent | src/backend/main.rs:232 | lower-casing twice is lower-casing once |
| Text.Split | src/backend/main.rs:248 | splitting at a separator gives at least one part, and no part contains the separator |
| Text.JoinSplit | src/backend/main.rs:248 | joining the parts of a split with the separator gives back the string |
| Text.SplitJoin | src/backend/main.rs:248 | splitting a join of separator-free parts gives back the parts |
| Text.PaddedValue | src/data-processing/main.rs:66 | a zero-padded field reads back as its value |
| Text.ValuePadded | src/data-processing/main.rs:66 | a digit field is the zero-padded text of its own value |
| Rfc3339.Parse | src/data-processing/main.rs:66 | `DateTime::parse_from_rfc3339` accepts only real calendar dates, times of day and offsets |
| Rfc3339.ParseOffset | src/data-processing/main.rs:66 | an accepted offset is `Z` or has hours up to 23 and minutes up to 59 |
| Rfc3339.ParseFormatOffset | src/data-processing/main.rs:66 | the text of a valid offset parses back to that offset |
| Rfc3339.FormatParseOffset | src/data-processing/main.rs:66 | an accepted offset text is exactly the canonical text of what it parses to |
| Rfc3339.FormatFields | src/data-processing/main.rs:93 | the canonical text puts each field and separator at its fixed position |
| Rfc3339.FormatExample | src/data-processing/main.rs:93 | midnight UTC on 30 November 1990 is a valid timestamp written "1990-11-30T00:00:00Z" |
| Rfc3339.ParseFormat | src/data-processing/main.rs:93 | the canonical text of a valid timestamp parses back to it |
| Rfc3339.FormatParse | src/data-processing/main.rs:93 | an accepted timestamp is exactly the canonical text of what it parses to |
| Ints.Max | src/data-processing/main.rs:74 | `std::cmp::max` of two ratings is at least each of them and is one of them |
| Dump.Fault | src/data-processing/main.rs:63-93 | the `unwrap` a row trips: a missing qualifier exactly for a GM-title row, or a birth-place row with a qualifier label, that has no qualifier value; an unparsable rating exactly for a rating row whose value `parse::<u32>` rejects; a GM-title or birth-date row is sound exactly when its date parses; an unparsable date only ever comes from those two rows, so name, country, image and unqualified birth-place rows never abort |
| Dump.FieldOf | src/data-processing/main.rs:51-118 | a row feeds no field exactly when its label is outside the nine known labels, or it is a title row whose value is not "Grandmaster" |
| Dump.Merge | src/data-processing/main.rs:51-118 | one row never shrinks a name or image set and never lowers the peak rating; a row feeding no field changes nothing |
| Dump.SoundRowsAll | src/data-processing/main.rs:42-119 | the loop's running soundness check holds exactly when every row is sound |
| Dump.FirstFaultAt | src/data-processing/main.rs:65-93 | a loop that meets its first panicking row at `i` reports row `i` as the first fault |
| Dump.LastAbout | src/data-processing/main.rs:78-112 | the row an overwritten field comes from lies within the input |
| Dump.LastAboutIsLast | src/data-processing/main.rs:78-112 | an overwritten text field comes from the last row about it, and no later row is about it; with no such row it stays at its default |
| Dump.PeakIsMax | src/data-processing/main.rs:71-76 | the peak rating is at least every rating stated for the player, and is one of them unless it is 0 |
| Dump.PeakNeverDecreases | src/data-processing/main.rs:71-76 | the peak rating after a prefix of the input never exceeds the final one |
| Dump.CollectedGrows | src/data-processing/main.rs:51-118 | user names (lines 51-61) and images (lines 114-118) collected from a prefix are still in the final sets |
| Dump.ProfileOfAbsent | src/data-processing/main.rs:43-48 | a player the input never mentions has the default record |
| Dump.ProfileSnocOther | src/data-processing/main.rs:42-118 | a row about another player leaves this player's record unchanged |
| Dump.ProfileSnocSame | src/data-processing/main.rs:42-118 | a row about a player changes that player's record exactly as `Merge` does |
| Dump.UnknownLabelIgnored | src/data-processing/main.rs:42-118 | a row with an unknown label leaves every record as it was |
| Dump.DottedDate | src/data-processing/main.rs:94-98 | the birth date text splits at its dots into exactly the unpadded day, month and year |
| Dump.DottedDateFields | src/data-processing/main.rs:94-98 | a birth date splits at its dots into unpadded day, month and year, which read back as the date's fields |
| Dump.BirthDateOfFormat | src/data-processing/main.rs:90-100 | a birth-date row in canonical form gives the day-first dotted form of that date |
| Dump.BirthDateExample | src/data-processing/main.rs:94-98 | 1990-11-30 is written "30.11.1990" |
| Dump.BirthDateRowExample | src/data-processing/main.rs:90-100 | a birth-date row "1990-11-30T00:00:00Z" gives the birth date "30.11.1990" |
| Dump.ExampleRatings | src/data-processing/main.rs:73 | "2700", "2882" and "2650" parse to those ratings |
| Dump.PeakExample | src/data-processing/main.rs:71-76 | ratings 2700, 2882 and 2650 for one player give a peak of 2882 |
| DataProcessing.UpdatePlayer | src/data-processing/main.rs:51-118 | one row's update of a record: it panics exactly on an unsound row, otherwise it applies `Merge` and keeps the name |
| DataProcessing.ExpectedBase | src/data-processing/main.rs:43-49 | the record the loop starts from (stored, or fresh for a new player) holds what the rows so far state |
| DataProcessing.ExpectedAt | src/data-processing/main.rs:42-118 | one more row changes the expected record of its own player by `Merge`, and no other record |
| DataProcessing.ExpectedStep | src/data-processing/main.rs:42-118 | storing the merged record of one more row's player gives the expected map for the longer input |
| DataProcessing.FoldedIsExpected | src/data-processing/main.rs:40-119 | folding the rows one at a time builds exactly the expected map |
| DataProcessing.AddRow | src/data-processing/main.rs:43-118 | one pass of the loop body panics exactly on an unsound row, otherwise it yields the map for one more row |
| DataProcessing.CollectPlayers | src/data-processing/main.rs:40-119 | the run fails exactly when some row is unsound, and reports the first one; otherwise it holds one record per player, named by its key, with every field as the input states it |
| SqliteGenerator.UpdatePlayer | src/sqlite-generator/main.rs:49-131 | one row's update of a record: it panics exactly on an unsound row, otherwise it applies `Merge` |
| SqliteGenerator.ExpectedBase | src/sqlite-generator/main.rs:44-47 | the record the loop starts from holds what the rows so far state |
| SqliteGenerator.ExpectedAt | src/sqlite-generator/main.rs:42-131 | one more row changes the expected record of its own player by `Merge`, and no other record |
| SqliteGenerator.ExpectedStep | src/sqlite-generator/main.rs:42-131 | storing the merged record of one more row's player gives the expected map for the longer input |
| SqliteGenerator.FoldedIsExpected | src/sqlite-generator/main.rs:40-132 | folding the rows one at a time builds exactly the expected map |
| SqliteGenerator.AddRow | src/sqlite-generator/main.rs:44-131 | one pass of the loop body panics exactly on an unsound row, otherwise it yields the map for one more row |
| SqliteGenerator.CollectPlayers | src/sqlite-generator/main.rs:40-132 | the run fails exactly when some row is unsound, and reports the first one; otherwise it holds one record per player, with every field as the input states it |
| Backend.Min | src/backend/main.rs:132 | `std::cmp::min`: at most both arguments and equal to one of them |
| Backend.TargetIndex | src/backend/main.rs:72 | a game id selects the position `game_id mod len`: a position inside the catalog that differs from the id by a multiple of the catalog size, so ids below the size select their own position |
| Backend.GetAnswer | src/backend/main.rs:71-76 | the answer is the name of the catalog entry the game id selects |
| Backend.GameFiveOfThree | src/backend/main.rs:71-76 | with three players, game 5 is about the player at position 2 |
| Backend.FirstOr | src/backend/main.rs:130 | the first element of a set is one of its elements, or the default when the set is empty |
| Backend.AnswerOf | src/backend/main.rs:89-123 | the answer of each category: the peak rating's text reads back as the rating, the year's text is `-` exactly for a negative year and reads back as its magnitude, the birth date, citizenship and birth place are copied, and the Chess.com line is one of the player's names or "Unknown" when there is none |
| Backend.GetPlayerDisplay | src/backend/main.rs:80-140 | nothing exactly past hint 7; otherwise the selected player's name, the first `min(hint, 6)` lines in category order with their answers, only the current hint's line animated, and one of the player's images or "" |
| Backend.DisplayGrows | src/backend/main.rs:88-133 | each hint keeps the previous hint's lines, same categories and text, and shows one more until all six are out |
| Backend.AtMostOneAnimated | src/backend/main.rs:88-124 | at most one line is animated, none at hints 0 and 7, and at hints 1 to 6 it is the newest line |
| Backend.RatingLineReadsBack | src/backend/main.rs:89-93 | the peak-rating line reads back as the player's peak rating |
| Backend.FullDisplay | src/backend/main.rs:169-174 | the display at the last hint: the answer's name, all six lines in category order with the player's answers, none animated, and one of the player's images or "" |
| Backend.ResolveGame | src/backend/main.rs:168-180 | a resolved game is lost, has no time, and reveals the full display of the answer: name, all six lines with their answers, and the picture |
| Backend.GetCategory | src/backend/main.rs:195-208 | the play area exactly for hints up to 7, with the lines and the image of the display and the picture shown exactly at hint 7; later hints resolve the game |
| Backend.Skip | src/backend/main.rs:217-219 | giving up is a lost game with no time that reveals the full display |
| Backend.HintProgression | src/backend/main.rs:195-204 | hints 1 to 6 show that many lines without the picture, hint 7 shows six lines and the picture, and later hints resolve the game as lost |
| Backend.FirstMatch | src/backend/main.rs:234-257 | the first catalog position whose name, or a token of it, starts with the query; no position matches when there is none |
| Backend.Predict | src/backend/main.rs:227-260 | no prediction for queries under three characters; otherwise a prediction exactly when some name matches the lower-cased query, and it is the first matching name in catalog order |
| Backend.SomePartIff | src/backend/main.rs:248-256 | the token scan succeeds exactly when some token of the name starts with the query |
| Backend.PredictIgnoresCase | src/backend/main.rs:232 | two queries equal up to case get the same prediction |
| Backend.PredictFullName | src/backend/main.rs:236-245 | typing a full name of three characters or more predicts that player, unless an earlier player matches |
| Backend.SurnameMatches | src/backend/main.rs:247-256 | a query that starts a player's surname matches the player |
| Backend.PredictBySurname | src/backend/main.rs:227-260 | the first player whose surname the query starts is predicted, whatever the case of the query |
| Backend.SubmitAnswer | src/backend/main.rs:267-301 | a guess wins exactly when it equals the answer up to case, and a win reveals the full display; anything else is the teapot status |
| Backend.SolvedRevealsLikeSkip | src/backend/main.rs:281-292 | winning and giving up reveal the same display; only success differs |
| Backend.AnswerAcceptsOwnName | src/backend/main.rs:267-269 | the answer itself, and its lower-case form, win |
| Logic.GameLogic.constructor | html/logic.js:5-12 | a new page starts at game 1337 with no hints and no answers |
| Logic.GameLogic.GenerateGameId | html/logic.js:18-26 | a new game takes the supplied id, returns it, and restarts the hint count at 0; the score is kept |
| Logic.GameLogic.GetGameId | html/logic.js:28-30 | returns the current game id |
| Logic.GameLogic.GetHintId | html/logic.js:32-34 | pre-increments the hint counter and returns the new value, at least 1 |
| Logic.GameLogic.AddCorrectAnswer | html/logic.js:46-49 | a correct answer adds one to both counters, keeping correct ≤ total |
| Logic.GameLogic.AddWrongAnswer | html/logic.js:51-53 | a wrong answer adds one to the total only |
| Logic.GameLogic.GetCorrectAnswers | html/logic.js:55-57 | returns the correct count, which never exceeds the total |
| Logic.GameLogic.GetTotalAnswers | html/logic.js:59-61 | returns the total, which is at least the correct count |
| Logic.CountCorrect | html/logic.js:46-53 | the correct answers among a series never outnumber the series |
| Logic.RecordAnswers | html/logic.js:46-53 | a series of answers adds its correct ones to the correct count and its length to the total |
| Logic.HintsOfNewGame | html/logic.js:18-34 | after a new game the hints requested are numbered 1, 2, 3, … |
| Logic.NewPage | html/logic.js:64 | the page's instance reports game 1337, 0 correct and 0 total |

## Left out

- The HTTP layer (`introduction`, `start_game`, `main`, routing and static files), template rendering and the response codes other than the wrong-answer status. These are I/O. `start_game` only renders `get_player_display` and unwraps it.
- Reading the dump, JSON parsing and writing, and the final printing of both pipelines. These are I/O. The model's input is the sequence of decoded rows, and its output is the finished map.
- The output order of the pipelines' hash map. It is not specified, so the model's output is a Dafny `map`.
- The iteration order of `HashSet`. The pipelines' sets are Dafny `set`s. The backend holds each set as a sequence, and its contracts only use "some element of the set, or the default".
- Backend.TargetIndex, Backend.GetAnswer, Backend.GetPlayerDisplay, Backend.FullDisplay, Backend.ResolveGame, Backend.GetCategory, Backend.Skip and Backend.SubmitAnswer require a non-empty catalog, because the source's `% len()` panics on an empty one. Backend.Predict and Backend.FirstMatch take any catalog; on an empty one there is no prediction.
- Backend.Predict counts the query's length in characters. The source counts UTF-8 bytes, which is the same for ASCII queries.
- Text.Lower lower-cases ASCII letters only. Rust's `to_lowercase` is Unicode case mapping.
- Rfc3339.Parse accepts `YYYY-MM-DDThh:mm:ss` followed by `Z` or `±hh:mm`. chrono also accepts other spellings of the same time, such as fractional seconds; those are not modelled.
- The calendar fields of a timestamp are those of its own offset, which is what chrono's `year()`, `month()` and `day()` return for a fixed-offset time. Conversion between offsets is not modelled.
- A pipeline run that panics is modelled as a result naming the first failing row. The partly built map it leaves behind is not modelled.
- Logic.GameLogic.GenerateGameId takes the new game id as a parameter. The source draws it from the browser's crypto source.
- The game and application start times, `initApp`, `getGameTime` and `getAppTime`. These read the clock.
- The page code after the class (`html/logic.js` from line 66): DOM access, fetch calls and event handlers.
- Logic.GameLogic: the hint counter and both answer counters (`currentHintId`, `correctAnswers`, `totalAnswers`) are unbounded integers. The source uses JavaScript numbers, which stop being exact past 2^53.
- The time of a win. Its measurement is commented out in `submit_answer`, so the result carries an empty time, as modelled.
- `src/schema-creator` is not part of this model. It only creates database tables the game never uses.
- Concurrency. The backend's handlers only read the shared catalog.
