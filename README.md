# Trizzle puzzle core, in Dafny

Trizzle is an ordering puzzle. On load, the page fetches the question list and
picks one question at random. The question's text lists numbered items. The player
picks five options into a row of five slots and submits the row. Each slot is then
scored green, yellow or gray. The player has five rows, and after a fifth failed row
the answer is revealed. The repository also holds a countdown timer component,
`Timer.js`, with its own state.

This project models the logic behind that page and proves what it promises:

- `basics.dfy` (module `Basics`) holds what the other modules share: an optional
  value, the digit class, `Math.max` and `join('')`.
- `question.dfy` (module `QuestionText`) models `processQuestion`. It finds the
  first `1)`, trims the text before it into an intro line, and splits the rest with
  the regular expression `/\s*(?=\d\))/`. The split follows the loop of ECMAScript's
  `RegExp.prototype[@@split]`. The whitespace set is the one ECMAScript's `\s` and
  `trim` use.
- `shuffle.dfy` (module `Shuffle`) models `shuffleArray`, the backward
  Fisher-Yates loop, as an in-place method on an `array`. The index that
  `Math.random` picks is an input, one draw per step.
- `game.dfy` (module `Puzzle`) models the attempt state machine as a class `Game`.
  Its fields are the page's state: the grid `attempts`, `currentAttemptIndex`,
  `gameOver`, `history`, `optionStatuses`, `revealFinalAnswer` and `displayResult`.
  Its methods are the three handlers, the loading step and the body of the delayed
  reveal. The predicate `Valid()` is the invariant the handlers keep:
  - the rows before the current one are frozen, and `history` holds their keys;
  - the row being edited has its filled slots first and no option twice;
  - `optionStatuses` holds, per option, the best status over the scored rows.
- `timer.dfy` (module `Countdown`) models `Timer.js` as a class `Timer`. The methods
  are the one-second tick, the two handlers behind the four edit buttons (+1 min,
  -1 min, +15s, -15s), reset and start/pause. `FormatTime`
  is a function, with a parser that reads the display back.

Some behaviours of the code, kept as written and stated as lemmas:

- `"10)"` splits before `"0)"`, because `\d` is one ASCII digit.
- Yellow means "occurs anywhere in the answer". Occurrences are not counted.
- The history key joins the values with no separator. So the full guesses
  `ab,c,x,y,z` and `a,bc,x,y,z` share a key, and once one is submitted the other is
  refused as already used (`KeyCollision`).
- The duplicate guard refuses an option already in the row. So a question whose
  answer repeats a value can never be won (`RepeatedAnswerUnwinnable`).
- `handleCheckAnswers` does not test `gameOver`. The model proves that a call after
  the game is over changes only the message.

## Model

| member | source | states |
|---|---|---|
| QuestionText.IndexOf | src/pages/Homepage.js:27 | The result is -1 or a position where the pattern occurs, and no earlier position holds it. |
| QuestionText.Trim | src/pages/Homepage.js:35 | The result has no whitespace at either end. It is a slice of the input with only whitespace cut before and after it. |
| QuestionText.MatchAt | src/pages/Homepage.js:39 | A match of `\s*(?=\d\))` tried at q ends at a `<digit>)` marker after only whitespace. Conversely, whenever only whitespace leads from q to a marker, the match ends at that marker; at a marker it is the empty match. |
| QuestionText.TrimAll | src/pages/Homepage.js:39 | `map(item => item.trim())`: same length, and each item is trimmed. |
| QuestionText.NonEmpty | src/pages/Homepage.js:39 | `filter(Boolean)`: a string is in the result exactly when it is in the input and is not empty. |
| QuestionText.SplitScan | src/pages/Homepage.js:39 | The split loop from a given cut and search position always yields at least one piece. |
| QuestionText.Split | src/pages/Homepage.js:39 | `split(/\s*(?=\d\))/)`: at least one piece; the pieces together hold the input's non-whitespace characters in order; when the input opens with a marker, every piece opens with one and holds no other. |
| QuestionText.ProcessQuestion | src/pages/Homepage.js:25-43 | The result always has at least one line. |
| QuestionText.SingleLine | src/pages/Homepage.js:27-32 | When `1)` is absent or at index 0, the result is exactly `[question]`, untrimmed. |
| QuestionText.NumberedLines | src/pages/Homepage.js:34-42 | Otherwise: at least two lines; the first is the trimmed text before the first `1)`; every other line is non-empty, trimmed, opens with `<digit>)` and holds no other marker; together they keep every non-whitespace character from `1)` on, in order. |
| QuestionText.SplitScanPieces | src/pages/Homepage.js:39 | Every piece of the split opens with a marker and holds no other marker. |
| QuestionText.SplitScanKeepsText | src/pages/Homepage.js:39 | The split only cuts at whitespace and drops only whitespace. |
| QuestionText.TrimItem | src/pages/Homepage.js:39 | A trimmed piece is a numbered line. |
| QuestionText.TrimAllItems | src/pages/Homepage.js:39 | After trimming, the filter removes nothing; each line is a numbered line; the text is kept. |
| QuestionText.NonSpaceTrim | src/pages/Homepage.js:35 | Trimming removes only whitespace. |
| Shuffle.Swap | src/pages/Homepage.js:18-19 | The destructuring swap exchanges two positions and keeps every other one. |
| Shuffle.Shuffled | src/pages/Homepage.js:11-20 | The arrangement the loop produces for given draws; it keeps the length. |
| Shuffle.ShuffledPermutes | src/pages/Homepage.js:7-23 | Whatever the draws, the result is a permutation of the input. |
| Shuffle.ShuffleArray | src/pages/Homepage.js:7-23 | The array ends as `Shuffled` of its old contents, so it holds the same multiset. |
| Shuffle.ShuffleOptions | src/pages/Homepage.js:79 | Shuffling a copy of the options gives a permutation of them and leaves them untouched. |
| Shuffle.ReachablePrefix | src/pages/Homepage.js:11-20 | Any rearrangement of the first c elements is produced by some valid draws. |
| Shuffle.ShuffleOutcomes | src/pages/Homepage.js:7-23 | The possible outcomes are exactly the permutations of the input, in both directions. |
| Basics.Concat | src/pages/Homepage.js:150 | `join('')`: the result is empty exactly when every string is, and it begins with the first string. |
| Basics.Max | src/components/Timer.js:59 | `Math.max`: the result is one of the two and at least both. |
| Puzzle.Values | src/pages/Homepage.js:150 | `map(guess => guess.value)`, slot by slot. |
| Puzzle.Key | src/pages/Homepage.js:150 | The history key is empty exactly when no slot is filled. |
| Puzzle.NoneFilled | src/pages/Homepage.js:150-152 | The filled count is zero exactly when every slot is empty. |
| Puzzle.HoldsOption | src/pages/Homepage.js:100-101 | The duplicate test holds exactly when the option is not empty and some slot of the row holds it. |
| Puzzle.Placed | src/pages/Homepage.js:110-113 | The option, unscored, is written into the leftmost empty slot; every other slot is kept. |
| Puzzle.ClearedLast | src/pages/Homepage.js:134-140 | The rightmost filled slot becomes empty; every other slot is kept; no slot from it on holds a value. |
| Puzzle.AllGreen | src/pages/Homepage.js:181 | `every(status === 'green')`: every slot has the best status there is. |
| Puzzle.Revealed | src/pages/Homepage.js:187 | The revealed row has the answer's length, spells the answer and is all green. |
| Puzzle.FilledCount | src/pages/Homepage.js:152 | The count of filled slots is at most the width, and equals it exactly when every slot is filled. |
| Puzzle.FirstEmpty | src/pages/Homepage.js:110 | `findIndex` of the first empty slot: -1 or an empty slot with only filled slots before it. |
| Puzzle.LastFilled | src/pages/Homepage.js:134-140 | What the backward scan finds: -1 or a filled slot with only empty slots after it. |
| Puzzle.Score | src/pages/Homepage.js:160-168 | Values are kept. A slot is green iff it equals the answer's slot, yellow iff not green and the value occurs in the answer, gray iff the value is not in the answer. |
| Puzzle.ScoreExample | src/pages/Homepage.js:160-168 | Answer A,B,C,D,E and guess A,C,B,X,E score green, yellow, yellow, gray, green. |
| Puzzle.MergeOne | src/pages/Homepage.js:171-174 | One step of the `forEach`: the map gains the slot's option; that option gets the better of its old entry and the slot's status; every other option keeps its entry. |
| Puzzle.MergeStatuses | src/pages/Homepage.js:170-175 | The merged map has the old keys plus the guess's values; each entry is the best of the old entry and the guess's statuses. |
| Puzzle.MergedMonotone | src/pages/Homepage.js:170-175 | Green is never replaced. Yellow only becomes green. Gray is written only where there was no entry. Options not in the guess are untouched. |
| Puzzle.SummarisesStep | src/pages/Homepage.js:170-176 | After a merge, the map still gives each option its best status over all scored rows. |
| Puzzle.ScoreFreezes | src/pages/Homepage.js:158-179 | A scored full row is frozen, and its key is the key that was recorded. |
| Puzzle.AcceptKeepsConsistent | src/pages/Homepage.js:158-196 | An accepted guess keeps the game invariant, whether it wins, loses or moves on. |
| Puzzle.OverRowUsed | src/pages/Homepage.js:149-156 | Once the game is over, the current row is full and its key is already in the history. |
| Puzzle.Game.constructor | src/pages/Homepage.js:53-62 | The initial state: five empty rows, index 0, no history, no statuses, no message. |
| Puzzle.Game.Reset | src/pages/Homepage.js:81-87 | Loading a question sets the answer and resets the grid, index, game-over flag, history and statuses. The reveal flag and the message are left as they are. |
| Puzzle.Game.SelectOption | src/pages/Homepage.js:95-122 | Nothing changes when the game is over. A duplicate or a full row only sets its message. Otherwise the option goes into the leftmost empty slot of the current row and nothing else changes. |
| Puzzle.Game.DeleteLast | src/pages/Homepage.js:125-145 | When the game is not over, only the rightmost filled slot of the current row is cleared. Otherwise nothing changes. |
| Puzzle.Game.CheckAnswers | src/pages/Homepage.js:148-200 | An incomplete or already used guess changes only the message. An accepted guess appends its key to the history, freezes the scored row, merges the statuses, and wins, loses or advances the index by one. After the game is over, only the message changes. |
| Puzzle.Game.Accept | src/pages/Homepage.js:158-196 | The accepted branch: one history entry, the scored row, the merged statuses, and the win, loss or advance outcome. The index stays below five. |
| Puzzle.Game.Reveal | src/pages/Homepage.js:187-190 | Allowed only after a fifth failed row. It appends the answer as an all-green sixth row, sets the reveal flag and the game-over message. |
| Puzzle.PlacedKeepsOpen | src/pages/Homepage.js:110-113 | Placing a new option keeps the row's shape: filled slots first, nothing scored, no option twice. |
| Puzzle.ClearedLastKeepsOpen | src/pages/Homepage.js:134-140 | Clearing the last filled slot keeps the row's shape. |
| Puzzle.OpenRowLayout | src/pages/Homepage.js:98-110 | In an edited row, the first empty slot and the last filled slot sit on either side of the filled count. |
| Puzzle.SelectFillsNext | src/pages/Homepage.js:107-115 | A new option is written into slot `FilledCount(row)`, and the count goes up by one. |
| Puzzle.DeleteClearsLast | src/pages/Homepage.js:133-140 | Deleting empties slot `FilledCount(row) - 1` and lowers the count by one. An all-empty row is unchanged. |
| Puzzle.SelectThenDelete | src/pages/Homepage.js:95-145 | A delete right after a selection restores the row. |
| Puzzle.DeleteThenSelect | src/pages/Homepage.js:95-145 | Selecting again the option just deleted is accepted and restores the row. |
| Puzzle.ClearedLastDropsValue | src/pages/Homepage.js:134-140 | The deleted option is nowhere else in the row. |
| Puzzle.SelectTwice | src/pages/Homepage.js:101-104 | An option just placed is refused by the duplicate guard if chosen again. |
| Puzzle.WinIffExact | src/pages/Homepage.js:181 | A row scores all green iff its values are the answer. |
| Puzzle.RevealedIsAnswer | src/pages/Homepage.js:187 | The revealed row is its own evaluation: scoring it against the answer changes nothing. |
| Puzzle.RepeatedAnswerUnwinnable | src/pages/Homepage.js:101-104 | If the answer repeats a value, no row that passes the duplicate guard scores all green. |
| Puzzle.KeyCollision | src/pages/Homepage.js:150-153 | The full open rows `ab,c,x,y,z` and `a,bc,x,y,z` have different values and the same history key. |
| Countdown.TotalSeconds | src/components/Timer.js:72 | The total is zero exactly when the time is 0:00; with fewer than 60 seconds, the time is the total's whole minutes and remaining seconds. |
| Countdown.FromSeconds | src/components/Timer.js:82-83 | Floor division and remainder give seconds below 60 with the same total. |
| Countdown.FromSecondsRoundTrip | src/components/Timer.js:72-83 | Converting a time to total seconds and back gives the same time. |
| Countdown.Timer.constructor | src/components/Timer.js:5-18 | The mount state: 1:30 shown and as default, stopped, not flashing. |
| Countdown.Timer.Tick | src/components/Timer.js:27-40 | Seconds above 0 drop by one. At :00 a minute is borrowed and seconds become 59. At 0:00 the time stays and the display flashes. The total drops by exactly one unless it is 0. |
| Countdown.Timer.IncrementMinutes | src/components/Timer.js:56-66 | Minutes become `max(0, minutes + val)`, seconds are kept, the new time becomes the default, the flash is cleared. |
| Countdown.Timer.IncrementSeconds | src/components/Timer.js:69-90 | A total of zero or less sets the time and the default to 0:00. Otherwise the new time has seconds below 60 and the old total plus val, and becomes the default. The flash is cleared. |
| Countdown.Timer.HandleReset | src/components/Timer.js:93-98 | The timer stops, stops flashing and shows the current default, not the mount's 1:30. |
| Countdown.Timer.HandleStartPause | src/components/Timer.js:100-103 | The running flag flips and the flash is cleared; the time is kept. |
| Countdown.DecimalString | src/components/Timer.js:50 | `String(n)`: at least one digit, no leading zero, one digit exactly below 10. |
| Countdown.PadStart | src/components/Timer.js:50 | `padStart`: the string is kept at the end and fill characters are put in front up to the width. |
| Countdown.TwoDigits | src/components/Timer.js:50-51 | At least two characters, all digits. |
| Countdown.FormatTime | src/components/Timer.js:49-53 | Digits, then `:`, then digits. |
| Countdown.FormatTimeTwoDigits | src/components/Timer.js:49-53 | Below 100 minutes and 100 seconds the display is exactly five characters, `mm:ss`. |
| Countdown.FormatTimeRoundTrip | src/components/Timer.js:49-53 | Reading the display back gives the minutes and seconds, whatever their size. |
| Countdown.TwoDigitsValue | src/components/Timer.js:50 | The padded digits denote the number. |
| Countdown.DecimalStringValue | src/components/Timer.js:50 | `String(n)` denotes n. |

## Left out

- The network fetch, the JSON decoding and the random choice of a question (Homepage.js lines 66-73). They are I/O and randomness.
- Storing the processed question and the shuffled options for rendering (Homepage.js lines 77 and 80). The values stored are modelled: `ProcessQuestion` for line 76, `ShuffleOptions` for line 79. The setting of the answer and the reset that follow (lines 81-87) are modelled as `Reset`.
- `Math.random` in `shuffleArray`. The index it would pick is an input to `ShuffleArray`, one valid draw per step.
- The 3-second `setTimeout` before the reveal, and the `setInterval` that drives the tick. Timing is not modelled: `Reveal` and `Tick` are the callback bodies, called as methods.
- React's batching of state setters. Each handler is one atomic step that reads the state as it was before the call.
- Rendering and styling: the JSX of the page, `AnswerGrid.js`, `ButtonGrid.js` and `CategorySelector.js`. `ButtonGrid.js` is not part of this model; the disabled submit button it renders is the only guard on `handleCheckAnswers` once the game is over.
- Category filtering and question navigation. No code in these files implements them.
- `toggleEdit` and `isEditing` in `Timer.js`. They only switch which controls are shown.
- DecimalString: models `String(n)` as plain decimal digits for every n. JavaScript switches to exponent notation from 1e21 on; the timer never reaches such values.
- Puzzle.Game: `optionStatuses` is a map from strings. A JavaScript object would also inherit prototype keys such as `constructor`, which could make `!newOptionStatuses[value]` false for an option with that name.
- Puzzle.Game.constructor / Puzzle.Game.Reset: require an answer of exactly five values. The source reads `correctAnswer[index].value` for slots 0 to 4 (Homepage.js:161), so a shorter answer would throw a TypeError when a guess is scored; a longer one would still have its extra values count for the yellow test at line 163.
- Countdown.Timer: minutes and seconds are `nat`. The JavaScript numbers are doubles; they never go negative or fractional in these operations.
