/** The attempt state machine of the home page (Homepage.js): a 5 x 5 grid of
    guesses, the current attempt, the history of submitted guesses, the best status
    seen per option, and the end-of-game reveal. Each handler is one atomic step that
    reads the state as it was before the call. */
module Puzzle {

  import opened Basics

  /** A slot's status: '' while unscored, then 'green', 'yellow' or 'gray'. */
  datatype Status = Unscored | Green | Yellow | Gray

  /** One slot `{ value, status }`; the value '' marks an empty slot. */
  datatype Guess = Guess(value: string, status: Status)

  const Empty: Guess := Guess("", Unscored)
  /** Slots per attempt, and attempts per question. */
  const Width: nat := 5
  const Rows: nat := 5
  const EmptyRow: seq<Guess> := [Empty, Empty, Empty, Empty, Empty]

  const DuplicateMessage := "You have already selected this guess in the current attempt."
  const FullMessage := "Current attempt is full. Submit your guess or delete a guess to change it."
  const UsedMessage := "You already used that guess."
  const CorrectMessage := "Correct sequence!"
  const IncorrectMessage := "Incorrect sequence, try again."
  const IncompleteMessage := "Each guess must be exactly 5 answers long."
  const GameOverMessage := "Game over. The correct sequence was:"

  // ---------------------------------------------------------------------------
  // Rows

  /** `row.map(guess => guess.value)`. */
  function Values(row: seq<Guess>): (vs: seq<string>)
    ensures |vs| == |row| && forall i :: 0 <= i < |row| ==> vs[i] == row[i].value
  {
    if row == [] then [] else Values(row[..|row| - 1]) + [row[|row| - 1].value]
  }

  /** `row.filter(guess => guess.value !== '').length`. */
  function FilledCount(row: seq<Guess>): (n: nat)
    ensures n <= |row|
    ensures n == |row| <==> forall i :: 0 <= i < |row| ==> row[i].value != ""
  {
    if row == [] then 0
    else (if row[0].value != "" then 1 else 0) + FilledCount(row[1..])
  }

  /** `row.findIndex(guess => guess.value === '')`: the leftmost empty slot, or -1. */
  function FirstEmpty(row: seq<Guess>, from: nat := 0): (k: int)
    requires from <= |row|
    ensures k == -1 || (from <= k < |row| && row[k].value == "")
    ensures forall j :: from <= j < |row| && (k == -1 || j < k) ==> row[j].value != ""
    decreases |row| - from
  {
    if from == |row| then -1
    else if row[from].value == "" then from
    else FirstEmpty(row, from + 1)
  }

  /** The rightmost filled slot, or -1: what the backward scan of handleDeleteLast finds. */
  function LastFilled(row: seq<Guess>): (k: int)
    ensures -1 <= k < |row|
    ensures k >= 0 ==> row[k].value != ""
    ensures forall j :: k < j < |row| ==> row[j].value == ""
  {
    if row == [] then -1
    else if row[|row| - 1].value != "" then |row| - 1
    else LastFilled(row[..|row| - 1])
  }

  /** `currentAttempt.map(guess => guess.value).join('')`: the history key of a guess. */
  function Key(row: seq<Guess>): (k: string)
    ensures k == "" <==> FilledCount(row) == 0
  {
    NoneFilled(row);
    Concat(Values(row))
  }

  lemma {:induction false} NoneFilled(row: seq<Guess>)
    ensures FilledCount(row) == 0 <==> forall i :: 0 <= i < |row| ==> row[i].value == ""
    decreases |row|
  {
    if row != [] {
      NoneFilled(row[1..]);
      assert forall i :: 1 <= i < |row| ==> row[i] == row[1..][i - 1];
    }
  }

  /** `filledGuesses.find(guess => guess.value === option)` is truthy: some filled
      slot of the row already holds the option. */
  function HoldsOption(row: seq<Guess>, option: string): (held: bool)
    ensures held <==> option != "" && exists i :: 0 <= i < |row| && row[i].value == option
  {
    option != "" && option in Values(row)
  }

  /** The row after `{ value: option, status: '' }` is written into its leftmost empty slot. */
  function Placed(row: seq<Guess>, option: string): (r: seq<Guess>)
    requires FirstEmpty(row) >= 0
    ensures |r| == |row| && r[FirstEmpty(row)] == Guess(option, Unscored)
    ensures forall i :: 0 <= i < |row| && i != FirstEmpty(row) ==> r[i] == row[i]
  {
    row[FirstEmpty(row) := Guess(option, Unscored)]
  }

  /** The row after its rightmost filled slot is cleared to `{ value: '', status: '' }`. */
  function ClearedLast(row: seq<Guess>): (r: seq<Guess>)
    ensures |r| == |row|
    ensures forall i :: 0 <= i < |row| && i != LastFilled(row) ==> r[i] == row[i]
    ensures LastFilled(row) >= 0 ==> r[LastFilled(row)] == Empty
    ensures forall i :: 0 <= i < |r| && LastFilled(row) <= i ==> r[i].value == ""
  {
    var k := LastFilled(row);
    if k < 0 then row else row[k := Empty]
  }

  /** The shape the row being edited keeps: filled slots first, then only empty
      ones; nothing scored yet; no option twice. */
  predicate IsOpenRow(row: seq<Guess>) {
    && (forall i, j :: 0 <= i < j < |row| && row[i].value == "" ==> row[j] == Empty)
    && (forall i :: 0 <= i < |row| ==> row[i].status == Unscored)
    && (forall i, j :: 0 <= i < j < |row| && row[i].value != "" ==> row[i].value != row[j].value)
  }

  // ---------------------------------------------------------------------------
  // Scoring

  /** The evaluation of a guess against the answer, slot by slot: green where the
      value is the answer's value at that position, else yellow where the value occurs
      anywhere in the answer (no occurrence counting), else gray. */
  function Score(row: seq<Guess>, answer: seq<string>): (r: seq<Guess>)
    requires |row| == |answer|
    ensures |r| == |row|
    ensures forall i :: 0 <= i < |row| ==> r[i].value == row[i].value
    ensures forall i :: 0 <= i < |row| ==> (r[i].status == Green <==> row[i].value == answer[i])
    ensures forall i :: 0 <= i < |row| ==>
              (r[i].status == Yellow <==> row[i].value != answer[i] && row[i].value in answer)
    ensures forall i :: 0 <= i < |row| ==> (r[i].status == Gray <==> row[i].value !in answer)
  {
    seq(|row|, i requires 0 <= i < |row| =>
      if row[i].value == answer[i] then Guess(row[i].value, Green)
      else if row[i].value in answer then Guess(row[i].value, Yellow)
      else Guess(row[i].value, Gray))
  }

  /** `row.every(guess => guess.status === 'green')`: every slot holds the best
      status there is. */
  function AllGreen(row: seq<Guess>): (all: bool)
    ensures all <==> forall i :: 0 <= i < |row| ==> Rank(row[i].status) == 3
  {
    forall i :: 0 <= i < |row| ==> row[i].status == Green
  }

  /** A frozen attempt: full, and its statuses are the evaluation of its values. */
  predicate IsScored(row: seq<Guess>, answer: seq<string>) {
    |row| == |answer| && FilledCount(row) == |row| && row == Score(row, answer)
  }

  /** The row the delayed reveal appends: the answer, every slot green. */
  function Revealed(answer: seq<string>): (r: seq<Guess>)
    ensures |r| == |answer| && Values(r) == answer && AllGreen(r)
  {
    seq(|answer|, i requires 0 <= i < |answer| => Guess(answer[i], Green))
  }

  // ---------------------------------------------------------------------------
  // Option statuses: green > yellow > gray > no entry

  function Rank(s: Status): nat {
    match s
    case Unscored => 0
    case Gray => 1
    case Yellow => 2
    case Green => 3
  }

  /** The rank of an option's entry; a missing entry, like the falsy '', ranks 0. */
  function RankOf(m: map<string, Status>, k: string): nat {
    if k in m then Rank(m[k]) else 0
  }

  /** The best rank any slot holding value k has in the row. */
  function BestIn(row: seq<Guess>, k: string): (r: nat)
    ensures r > 0 ==> k in Values(row)
  {
    if row == [] then 0
    else
      var last := row[|row| - 1];
      Max(BestIn(row[..|row| - 1], k), if last.value == k then Rank(last.status) else 0)
  }

  /** The best rank value k has across the scored rows. */
  function BestSeen(rows: seq<seq<Guess>>, k: string): nat {
    if rows == [] then 0 else Max(BestSeen(rows[..|rows| - 1], k), BestIn(rows[|rows| - 1], k))
  }

  /** Value k occurs in one of the scored rows. */
  predicate Seen(rows: seq<seq<Guess>>, k: string) {
    rows != [] && (Seen(rows[..|rows| - 1], k) || k in Values(rows[|rows| - 1]))
  }

  /** The map holds, for every option seen in the scored rows and for no other, the
      best status that option received. */
  ghost predicate Summarises(m: map<string, Status>, rows: seq<seq<Guess>>) {
    forall k :: (k in m <==> Seen(rows, k)) && RankOf(m, k) == BestSeen(rows, k)
  }

  /** `merged` is `statuses` with every slot of the evaluation folded in, keeping per
      option the best status. */
  ghost predicate MergedFrom(merged: map<string, Status>, statuses: map<string, Status>,
                             evaluation: seq<Guess>) {
    forall k :: (k in merged <==> k in statuses || k in Values(evaluation))
                && RankOf(merged, k) == Max(RankOf(statuses, k), BestIn(evaluation, k))
  }

  /** The callback of the `forEach` in handleCheckAnswers: the option gets the slot's
      status when it has no entry yet (or a falsy one), when the slot is green, or when
      the slot is yellow and the entry is not green. */
  function MergeOne(m: map<string, Status>, guess: Guess): (r: map<string, Status>)
    ensures forall k :: k in r <==> k in m || k == guess.value
    ensures RankOf(r, guess.value) == Max(RankOf(m, guess.value), Rank(guess.status))
    ensures forall k :: k != guess.value ==> RankOf(r, k) == RankOf(m, k)
  {
    if guess.value !in m || m[guess.value] == Unscored || guess.status == Green
       || (guess.status == Yellow && m[guess.value] != Green)
    then m[guess.value := guess.status]
    else m
  }

  lemma MergeStep(merged: map<string, Status>, statuses: map<string, Status>,
                  evaluation: seq<Guess>, i: nat)
    requires i < |evaluation| && MergedFrom(merged, statuses, evaluation[..i])
    ensures MergedFrom(MergeOne(merged, evaluation[i]), statuses, evaluation[..i + 1])
  {
    var next := evaluation[..i + 1];
    assert next[..|next| - 1] == evaluation[..i];
    assert next[|next| - 1] == evaluation[i];
    forall k
      ensures (k in MergeOne(merged, evaluation[i]) <==> k in statuses || k in Values(next))
      ensures RankOf(MergeOne(merged, evaluation[i]), k)
              == Max(RankOf(statuses, k), BestIn(next, k))
    {
    }
  }

  /** The `forEach` of handleCheckAnswers over the evaluation, on a copy of the map. */
  method MergeStatuses(statuses: map<string, Status>, evaluation: seq<Guess>)
    returns (merged: map<string, Status>)
    ensures MergedFrom(merged, statuses, evaluation)
  {
    merged := statuses;
    var i := 0;
    while i < |evaluation|
      invariant 0 <= i <= |evaluation|
      invariant MergedFrom(merged, statuses, evaluation[..i])
    {
      MergeStep(merged, statuses, evaluation, i);
      merged := MergeOne(merged, evaluation[i]);
      i := i + 1;
    }
    assert evaluation[..i] == evaluation;
  }

  /** What "best status wins" means for each entry: a green entry stays green, a yellow
      one can only turn green, gray is only written where there was no entry, and the
      options not in the guess keep their entries. */
  lemma MergedMonotone(merged: map<string, Status>, statuses: map<string, Status>,
                       evaluation: seq<Guess>)
    requires MergedFrom(merged, statuses, evaluation)
    ensures forall k :: k in statuses && statuses[k] == Green ==> k in merged && merged[k] == Green
    ensures forall k :: k in statuses && statuses[k] == Yellow ==>
              k in merged && (merged[k] == Yellow || merged[k] == Green)
    ensures forall k :: k in merged && merged[k] == Gray ==>
              k !in statuses || statuses[k] == Gray || statuses[k] == Unscored
    ensures forall k :: k !in Values(evaluation) ==>
              (k in merged <==> k in statuses) && (k in statuses ==> merged[k] == statuses[k])
  {
    forall k | k !in Values(evaluation)
      ensures (k in merged <==> k in statuses) && (k in statuses ==> merged[k] == statuses[k])
    {
      assert BestIn(evaluation, k) == 0;
      assert RankOf(merged, k) == RankOf(statuses, k);
    }
    forall k | k in statuses
      ensures k in merged && RankOf(merged, k) >= Rank(statuses[k])
    {
    }
  }

  // ---------------------------------------------------------------------------
  // The game invariant

  /** The first |history| rows are frozen, and history[r] is the key of row r. */
  predicate FrozenPrefix(answer: seq<string>, attempts: seq<seq<Guess>>, history: seq<string>) {
    && |history| <= |attempts|
    && forall r {:trigger history[r]} :: 0 <= r < |history| ==>
         history[r] == Key(attempts[r]) && IsScored(attempts[r], answer)
  }

  /** No guess is in the history twice. */
  predicate NoRepeats(history: seq<string>) {
    forall r, r' :: 0 <= r < r' < |history| ==> history[r] != history[r']
  }

  /** What holds of the game's state between handlers. */
  ghost predicate Consistent(answer: seq<string>, attempts: seq<seq<Guess>>, cur: nat,
                             gameOver: bool, history: seq<string>,
                             statuses: map<string, Status>, revealFinalAnswer: bool)
  {
    && |answer| == Width
    && cur < Rows
    && (|attempts| == Rows
        || (|attempts| == Rows + 1 && gameOver && revealFinalAnswer
            && attempts[Rows] == Revealed(answer)))
    && (forall r :: 0 <= r < |attempts| ==> |attempts[r]| == Width)
    // the history is exactly the keys of the scored rows, with no repeats
    && |history| == cur + (if gameOver then 1 else 0)
    && FrozenPrefix(answer, attempts, history)
    && NoRepeats(history)
    // the row being edited, and the untouched rows after it
    && (!gameOver ==> IsOpenRow(attempts[cur]))
    && (forall r :: cur < r < Rows ==> attempts[r] == EmptyRow)
    // a game ends on an all-green row or on the last row
    && (gameOver ==> AllGreen(attempts[cur]) || cur == Rows - 1)
    // the option statuses are the best status of each option over the scored rows
    && Summarises(statuses, attempts[..|history|])
  }

  lemma FrozenPrefixStep(answer: seq<string>, attempts: seq<seq<Guess>>, history: seq<string>)
    requires FrozenPrefix(answer, attempts, history) && |history| < |attempts|
    requires |attempts[|history|]| == |answer| && FilledCount(attempts[|history|]) == |answer|
    ensures var row := attempts[|history|];
            FrozenPrefix(answer, attempts[|history| := Score(row, answer)], history + [Key(row)])
  {
    var cur := |history|;
    ScoreFreezes(attempts[cur], answer);
  }

  lemma NoRepeatsStep(history: seq<string>, key: string)
    requires NoRepeats(history) && key !in history
    ensures NoRepeats(history + [key])
  {
  }

  /** An accepted guess keeps the invariant, whichever way the game goes on. */
  lemma AcceptKeepsConsistent(answer: seq<string>, attempts: seq<seq<Guess>>, cur: nat,
                              history: seq<string>, statuses: map<string, Status>,
                              revealFinalAnswer: bool, merged: map<string, Status>,
                              attempts': seq<seq<Guess>>, next: nat, over: bool,
                              history': seq<string>)
    requires Consistent(answer, attempts, cur, false, history, statuses, revealFinalAnswer)
    requires FilledCount(attempts[cur]) == Width && Key(attempts[cur]) !in history
    requires MergedFrom(merged, statuses, Score(attempts[cur], answer))
    requires attempts' == attempts[cur := Score(attempts[cur], answer)]
    requires history' == history + [Key(attempts[cur])]
    requires over == (AllGreen(Score(attempts[cur], answer)) || cur == Rows - 1)
    requires next == if over then cur else cur + 1
    ensures Consistent(answer, attempts', next, over, history', merged, revealFinalAnswer)
  {
    AcceptKeepsShape(answer, attempts, cur, history, statuses, revealFinalAnswer);
    AcceptKeepsRecord(answer, attempts, cur, history, statuses, merged);
  }

  /** The grid part of the invariant after an accepted guess. */
  lemma AcceptKeepsShape(answer: seq<string>, attempts: seq<seq<Guess>>, cur: nat,
                         history: seq<string>, statuses: map<string, Status>,
                         revealFinalAnswer: bool)
    requires Consistent(answer, attempts, cur, false, history, statuses, revealFinalAnswer)
    requires FilledCount(attempts[cur]) == Width
    ensures var evaluation := Score(attempts[cur], answer);
            var over := AllGreen(evaluation) || cur == Rows - 1;
            var next := if over then cur else cur + 1;
            var attempts' := attempts[cur := evaluation];
            && |attempts'| == Rows
            && (forall r :: 0 <= r < |attempts'| ==> |attempts'[r]| == Width)
            && (!over ==> IsOpenRow(attempts'[next]))
            && (forall r :: next < r < Rows ==> attempts'[r] == EmptyRow)
  {
  }

  /** The history and option-status part of the invariant after an accepted guess. */
  lemma AcceptKeepsRecord(answer: seq<string>, attempts: seq<seq<Guess>>, cur: nat,
                          history: seq<string>, statuses: map<string, Status>,
                          merged: map<string, Status>)
    requires cur == |history| < |attempts| && |attempts[cur]| == |answer|
    requires FrozenPrefix(answer, attempts, history) && NoRepeats(history)
    requires Summarises(statuses, attempts[..cur])
    requires FilledCount(attempts[cur]) == |answer| && Key(attempts[cur]) !in history
    requires MergedFrom(merged, statuses, Score(attempts[cur], answer))
    ensures var evaluation := Score(attempts[cur], answer);
            var attempts' := attempts[cur := evaluation];
            var history' := history + [Key(attempts[cur])];
            && FrozenPrefix(answer, attempts', history')
            && NoRepeats(history')
            && Summarises(merged, attempts'[..|history'|])
  {
    var evaluation := Score(attempts[cur], answer);
    var attempts' := attempts[cur := evaluation];
    FrozenPrefixStep(answer, attempts, history);
    NoRepeatsStep(history, Key(attempts[cur]));
    SummarisesStep(statuses, attempts[..cur], evaluation, merged);
    assert attempts'[..cur + 1] == attempts[..cur] + [evaluation];
  }

  /** Editing the open row, keeping it open, keeps the invariant. */
  lemma EditKeepsConsistent(answer: seq<string>, attempts: seq<seq<Guess>>, cur: nat,
                            history: seq<string>, statuses: map<string, Status>,
                            revealFinalAnswer: bool, row: seq<Guess>)
    requires Consistent(answer, attempts, cur, false, history, statuses, revealFinalAnswer)
    requires IsOpenRow(row) && |row| == Width
    ensures Consistent(answer, attempts[cur := row], cur, false, history, statuses,
                       revealFinalAnswer)
  {
    var attempts' := attempts[cur := row];
    assert attempts'[..cur] == attempts[..cur];
    assert FrozenPrefix(answer, attempts', history) by {
      forall r | 0 <= r < |history|
        ensures history[r] == Key(attempts'[r]) && IsScored(attempts'[r], answer)
      {
        assert attempts'[r] == attempts[r];
      }
    }
  }

  /** Once the game is over, the current row is frozen and its key is in the history. */
  lemma OverRowUsed(answer: seq<string>, attempts: seq<seq<Guess>>, cur: nat,
                    history: seq<string>, statuses: map<string, Status>, revealFinalAnswer: bool)
    requires Consistent(answer, attempts, cur, true, history, statuses, revealFinalAnswer)
    ensures FilledCount(attempts[cur]) == Width && Key(attempts[cur]) in history
  {
    assert history[cur] == Key(attempts[cur]);
  }

  // ---------------------------------------------------------------------------
  // The game

  class Game {
    /** The canonical answer (the values of `correctAnswer`). */
    var answer: seq<string>
    var attempts: seq<seq<Guess>>
    var currentAttemptIndex: nat
    var gameOver: bool
    var history: seq<string>
    var optionStatuses: map<string, Status>
    var revealFinalAnswer: bool
    var displayResult: string

    ghost predicate Valid()
      reads this
    {
      Consistent(answer, attempts, currentAttemptIndex, gameOver, history, optionStatuses,
                 revealFinalAnswer)
    }

    /** The state once a question is loaded: the initial state of the page followed
        by the loading step (Homepage.js lines 50-62, 81, 83-87). */
    constructor (answer: seq<string>)
      requires |answer| == Width
      ensures Valid()
      ensures this.answer == answer && attempts == [EmptyRow, EmptyRow, EmptyRow, EmptyRow, EmptyRow]
      ensures currentAttemptIndex == 0 && !gameOver && history == [] && optionStatuses == map[]
      ensures !revealFinalAnswer && displayResult == ""
    {
      this.answer := answer;
      attempts := [EmptyRow, EmptyRow, EmptyRow, EmptyRow, EmptyRow];
      currentAttemptIndex := 0;
      gameOver := false;
      history := [];
      optionStatuses := map[];
      revealFinalAnswer := false;
      displayResult := "";
      new;
      assert attempts[..0] == [];
    }

    /** Loading a question (lines 81, 83-87): the answer is replaced and the game state
        reset; revealFinalAnswer and displayResult are left as they are. */
    method Reset(answer: seq<string>)
      requires Valid()
      requires |answer| == Width
      modifies this
      ensures Valid()
      ensures this.answer == answer && attempts == [EmptyRow, EmptyRow, EmptyRow, EmptyRow, EmptyRow]
      ensures currentAttemptIndex == 0 && !gameOver && history == [] && optionStatuses == map[]
      ensures revealFinalAnswer == old(revealFinalAnswer) && displayResult == old(displayResult)
    {
      this.answer := answer;
      attempts := [EmptyRow, EmptyRow, EmptyRow, EmptyRow, EmptyRow];
      currentAttemptIndex := 0;
      gameOver := false;
      history := [];
      optionStatuses := map[];
      assert attempts[..0] == [];
    }

    /** `handleSelectOption(option)`. */
    method SelectOption(option: string)
      requires Valid()
      modifies this
      ensures Valid()
      ensures answer == old(answer) && currentAttemptIndex == old(currentAttemptIndex)
      ensures gameOver == old(gameOver) && history == old(history)
      ensures optionStatuses == old(optionStatuses) && revealFinalAnswer == old(revealFinalAnswer)
      ensures var row := old(attempts[currentAttemptIndex]);
              if old(gameOver) then
                attempts == old(attempts) && displayResult == old(displayResult)
              else if HoldsOption(row, option) then
                attempts == old(attempts) && displayResult == DuplicateMessage
              else if FilledCount(row) == Width then
                attempts == old(attempts) && displayResult == FullMessage
              else
                FirstEmpty(row) >= 0
                && attempts == old(attempts)[currentAttemptIndex := Placed(row, option)]
                && displayResult == ""
    {
      if !gameOver {
        var currentAttempt := attempts[currentAttemptIndex];
        if HoldsOption(currentAttempt, option) {
          displayResult := DuplicateMessage;
          return;
        }
        if FilledCount(currentAttempt) < Width {
          var optionIndex := FirstEmpty(currentAttempt);
          if optionIndex != -1 {
            PlacedKeepsOpen(currentAttempt, option);
            EditKeepsConsistent(answer, attempts, currentAttemptIndex, history, optionStatuses,
                                revealFinalAnswer, Placed(currentAttempt, option));
            attempts := attempts[currentAttemptIndex := Placed(currentAttempt, option)];
            displayResult := "";
          }
        } else {
          displayResult := FullMessage;
        }
      }
    }

    /** `handleDeleteLast()`: the backward scan clears the rightmost filled slot. */
    method DeleteLast()
      requires Valid()
      modifies this
      ensures Valid()
      ensures answer == old(answer) && currentAttemptIndex == old(currentAttemptIndex)
      ensures gameOver == old(gameOver) && history == old(history)
      ensures optionStatuses == old(optionStatuses) && revealFinalAnswer == old(revealFinalAnswer)
      ensures displayResult == old(displayResult)
      ensures attempts == if old(gameOver) then old(attempts)
                          else old(attempts)[currentAttemptIndex := ClearedLast(old(attempts[currentAttemptIndex]))]
    {
      if !gameOver {
        var currentAttempt := attempts[currentAttemptIndex];
        var i := |currentAttempt| - 1;
        while i >= 0
          invariant -1 <= i < |currentAttempt|
          invariant currentAttempt == attempts[currentAttemptIndex]
          invariant forall j :: i < j < |currentAttempt| ==> currentAttempt[j].value == ""
        {
          if currentAttempt[i].value != "" {
            currentAttempt := currentAttempt[i := Empty];
            break;
          }
          i := i - 1;
        }
        assert currentAttempt == ClearedLast(attempts[currentAttemptIndex]);
        ClearedLastKeepsOpen(attempts[currentAttemptIndex]);
        EditKeepsConsistent(answer, attempts, currentAttemptIndex, history, optionStatuses,
                            revealFinalAnswer, currentAttempt);
        attempts := attempts[currentAttemptIndex := currentAttempt];
      }
    }

    /** `handleCheckAnswers()`. It does not look at gameOver: only the disabled button
        keeps it from being called once the game is over. */
    method CheckAnswers()
      requires Valid()
      modifies this
      ensures Valid()
      ensures answer == old(answer) && revealFinalAnswer == old(revealFinalAnswer)
      ensures var row := old(attempts[currentAttemptIndex]);
              var cur := old(currentAttemptIndex);
              var evaluation := Score(row, answer);
              if FilledCount(row) < Width || Key(row) in old(history) then
                && attempts == old(attempts) && currentAttemptIndex == cur
                && gameOver == old(gameOver) && history == old(history)
                && optionStatuses == old(optionStatuses)
                && displayResult == (if FilledCount(row) < Width then IncompleteMessage else UsedMessage)
              else
                && history == old(history) + [Key(row)]
                && attempts == old(attempts)[cur := evaluation]
                && MergedFrom(optionStatuses, old(optionStatuses), evaluation)
                && if AllGreen(evaluation) then
                     gameOver && currentAttemptIndex == cur && displayResult == CorrectMessage
                   else if cur == Rows - 1 then
                     gameOver && currentAttemptIndex == cur && displayResult == old(displayResult)
                   else
                     !gameOver && currentAttemptIndex == cur + 1 && displayResult == IncorrectMessage
      // Once the game is over the history already holds the current row, so a call
      // changes nothing but the message.
      ensures old(gameOver) ==>
                && attempts == old(attempts) && currentAttemptIndex == old(currentAttemptIndex)
                && gameOver && history == old(history) && optionStatuses == old(optionStatuses)
                && displayResult == UsedMessage
    {
      var currentAttempt := attempts[currentAttemptIndex];
      var guessString := Key(currentAttempt);
      if gameOver {
        OverRowUsed(answer, attempts, currentAttemptIndex, history, optionStatuses,
                    revealFinalAnswer);
      }
      if FilledCount(currentAttempt) == Width {
        if guessString in history {
          displayResult := UsedMessage;
          return;
        }
        Accept();
      } else {
        displayResult := IncompleteMessage;
      }
    }

    /** The branch of `handleCheckAnswers()` for a full guess not tried before: the
        row is scored and frozen, its key recorded, the option statuses merged, and the
        game won, lost or moved on to the next row. */
    method Accept()
      requires Valid()
      requires !gameOver && FilledCount(attempts[currentAttemptIndex]) == Width
      requires Key(attempts[currentAttemptIndex]) !in history
      modifies this
      ensures Valid()
      ensures answer == old(answer) && revealFinalAnswer == old(revealFinalAnswer)
      ensures var row := old(attempts[currentAttemptIndex]);
              var cur := old(currentAttemptIndex);
              var evaluation := Score(row, answer);
              && history == old(history) + [Key(row)]
              && attempts == old(attempts)[cur := evaluation]
              && MergedFrom(optionStatuses, old(optionStatuses), evaluation)
              && if AllGreen(evaluation) then
                   gameOver && currentAttemptIndex == cur && displayResult == CorrectMessage
                 else if cur == Rows - 1 then
                   gameOver && currentAttemptIndex == cur && displayResult == old(displayResult)
                 else
                   !gameOver && currentAttemptIndex == cur + 1 && displayResult == IncorrectMessage
    {
      var currentAttempt := attempts[currentAttemptIndex];
      var evaluation := Score(currentAttempt, answer);
      var merged := MergeStatuses(optionStatuses, evaluation);
      history := history + [Key(currentAttempt)];
      optionStatuses := merged;
      attempts := attempts[currentAttemptIndex := evaluation];
      if AllGreen(evaluation) {
        displayResult := CorrectMessage;
        gameOver := true;
      } else if currentAttemptIndex == Rows - 1 {
        gameOver := true;
      } else {
        currentAttemptIndex := currentAttemptIndex + 1;
        displayResult := IncorrectMessage;
      }
      AcceptKeepsConsistent(answer, old(attempts), old(currentAttemptIndex), old(history),
                            old(optionStatuses), revealFinalAnswer, optionStatuses,
                            attempts, currentAttemptIndex, gameOver, history);
    }

    /** The body of the delayed callback scheduled on the fifth failed attempt
        (lines 187-190): the answer is appended as an all-green row. */
    method Reveal()
      requires Valid()
      requires gameOver && !AllGreen(attempts[currentAttemptIndex]) && |attempts| == Rows
      modifies this
      ensures Valid()
      ensures attempts == old(attempts) + [Revealed(answer)] && |attempts| == Rows + 1
      ensures revealFinalAnswer && displayResult == GameOverMessage
      ensures answer == old(answer) && currentAttemptIndex == old(currentAttemptIndex) && gameOver
      ensures history == old(history) && optionStatuses == old(optionStatuses)
    {
      var correctAttempt := Revealed(answer);
      assert attempts[..|history|] == (attempts + [correctAttempt])[..|history|];
      attempts := attempts + [correctAttempt];
      revealFinalAnswer := true;
      displayResult := GameOverMessage;
    }
  }

  // ---------------------------------------------------------------------------
  // Row lemmas

  /** Placing an option keeps the edited row's shape. */
  lemma PlacedKeepsOpen(row: seq<Guess>, option: string)
    requires IsOpenRow(row) && FirstEmpty(row) >= 0 && !HoldsOption(row, option)
    ensures IsOpenRow(Placed(row, option))
  {
    var k := FirstEmpty(row);
    var r := Placed(row, option);
    assert row[k] == Empty by {
      assert row[k].status == Unscored;
    }
    forall i, j | 0 <= i < j < |r| && r[i].value != ""
      ensures r[i].value != r[j].value
    {
      if j == k {
        assert Values(row)[i] == row[i].value;
      } else if i == k {
        assert row[j] == Empty;
      }
    }
  }

  /** Clearing the last filled slot keeps the edited row's shape. */
  lemma ClearedLastKeepsOpen(row: seq<Guess>)
    requires IsOpenRow(row)
    ensures IsOpenRow(ClearedLast(row))
  {
  }

  /** Scoring a full row gives a frozen row with the same key. */
  lemma ScoreFreezes(row: seq<Guess>, answer: seq<string>)
    requires |row| == |answer| && FilledCount(row) == |row|
    ensures IsScored(Score(row, answer), answer)
    ensures Key(Score(row, answer)) == Key(row)
  {
    var r := Score(row, answer);
    assert Values(r) == Values(row);
    assert Score(r, answer) == r;
  }

  /** Folding one more scored row into a summarising map keeps it summarising. */
  lemma SummarisesStep(m: map<string, Status>, rows: seq<seq<Guess>>,
                       evaluation: seq<Guess>, merged: map<string, Status>)
    requires Summarises(m, rows) && MergedFrom(merged, m, evaluation)
    ensures Summarises(merged, rows + [evaluation])
  {
    var next := rows + [evaluation];
    assert next[..|next| - 1] == rows;
  }

  // ---------------------------------------------------------------------------
  // Properties of the row edits and of scoring

  /** FilledCount of a row whose first k slots are filled and the rest empty. */
  lemma {:induction false} FilledCountOfLayout(row: seq<Guess>, k: nat)
    requires k <= |row|
    requires forall i :: 0 <= i < k ==> row[i].value != ""
    requires forall i :: k <= i < |row| ==> row[i].value == ""
    ensures FilledCount(row) == k
    decreases |row|
  {
    if row != [] {
      if k == 0 {
        FilledCountOfLayout(row[1..], 0);
      } else {
        FilledCountOfLayout(row[1..], k - 1);
      }
    }
  }

  /** An open row is its filled slots followed by empty ones: the leftmost empty slot
      and the rightmost filled one sit on either side of position FilledCount(row). */
  lemma OpenRowLayout(row: seq<Guess>)
    requires IsOpenRow(row)
    ensures var n := FilledCount(row);
            && (forall i :: 0 <= i < n ==> row[i].value != "")
            && (forall i :: n <= i < |row| ==> row[i] == Empty)
            && FirstEmpty(row) == (if n == |row| then -1 else n)
            && LastFilled(row) == n - 1
  {
    var f := FirstEmpty(row);
    var k := if f == -1 then |row| else f;
    OpenRowTail(row, k);
    FilledCountOfLayout(row, k);
    LastFilledOfLayout(row, k);
  }

  lemma OpenRowTail(row: seq<Guess>, k: nat)
    requires IsOpenRow(row)
    requires k == (if FirstEmpty(row) == -1 then |row| else FirstEmpty(row))
    ensures k <= |row| && forall i :: k <= i < |row| ==> row[i] == Empty
  {
    if k < |row| {
      var f := FirstEmpty(row);
      assert row[f].value == "" && row[f].status == Unscored;
      forall i | k < i < |row|
        ensures row[i] == Empty
      {
        assert f < i && row[f].value == "";
      }
    }
  }

  lemma LastFilledOfLayout(row: seq<Guess>, k: nat)
    requires k <= |row|
    requires forall i :: 0 <= i < k ==> row[i].value != ""
    requires forall i :: k <= i < |row| ==> row[i].value == ""
    ensures LastFilled(row) == k - 1
  {
  }

  /** Selecting an option that is not yet in the open, not full row writes it into
      slot FilledCount(row) and leaves every other slot as it was. */
  lemma SelectFillsNext(row: seq<Guess>, option: string)
    requires IsOpenRow(row) && FilledCount(row) < |row| && !HoldsOption(row, option)
    ensures FirstEmpty(row) == FilledCount(row)
    ensures Placed(row, option) == row[FilledCount(row) := Guess(option, Unscored)]
    ensures option != "" ==> FilledCount(Placed(row, option)) == FilledCount(row) + 1
    ensures option == "" ==> Placed(row, option) == row
  {
    var n := FilledCount(row);
    OpenRowLayout(row);
    var r := Placed(row, option);
    if option != "" {
      FilledCountOfLayout(r, n + 1);
    } else {
      assert row[n] == Empty;
    }
  }

  /** Deleting from an open row empties slot FilledCount(row) - 1 and no other; an
      all-empty row is left as it was. */
  lemma DeleteClearsLast(row: seq<Guess>)
    requires IsOpenRow(row)
    ensures FilledCount(row) == 0 ==> ClearedLast(row) == row
    ensures FilledCount(row) > 0 ==>
              ClearedLast(row) == row[FilledCount(row) - 1 := Empty]
              && FilledCount(ClearedLast(row)) == FilledCount(row) - 1
  {
    var n := FilledCount(row);
    OpenRowLayout(row);
    if n > 0 {
      FilledCountOfLayout(ClearedLast(row), n - 1);
    }
  }

  /** Deleting right after a selection undoes it. */
  lemma SelectThenDelete(row: seq<Guess>, option: string)
    requires IsOpenRow(row) && FilledCount(row) < |row| && !HoldsOption(row, option)
    requires option != ""
    ensures ClearedLast(Placed(row, option)) == row
  {
    var n := FilledCount(row);
    SelectFillsNext(row, option);
    PlacedKeepsOpen(row, option);
    DeleteClearsLast(Placed(row, option));
    OpenRowLayout(row);
  }

  /** Selecting again the option just deleted restores the row. */
  lemma DeleteThenSelect(row: seq<Guess>)
    requires IsOpenRow(row) && FilledCount(row) > 0
    ensures var last := row[FilledCount(row) - 1].value;
            var cleared := ClearedLast(row);
            && FilledCount(cleared) < |cleared| && !HoldsOption(cleared, last)
            && Placed(cleared, last) == row
  {
    var last := row[FilledCount(row) - 1].value;
    DeleteClearsLast(row);
    ClearedLastKeepsOpen(row);
    ClearedLastDropsValue(row);
    SelectFillsNext(ClearedLast(row), last);
  }

  /** The value deleted is nowhere else in the row. */
  lemma ClearedLastDropsValue(row: seq<Guess>)
    requires IsOpenRow(row) && FilledCount(row) > 0
    ensures !HoldsOption(ClearedLast(row), row[FilledCount(row) - 1].value)
  {
    var k := FilledCount(row) - 1;
    DeleteClearsLast(row);
    OpenRowLayout(row);
  }

  /** Selecting an option a second time is refused by the duplicate guard. */
  lemma SelectTwice(row: seq<Guess>, option: string)
    requires FirstEmpty(row) >= 0 && option != ""
    ensures HoldsOption(Placed(row, option), option)
  {
    var k := FirstEmpty(row);
    assert Values(Placed(row, option))[k] == option;
  }

  /** A guess scores all green exactly when its values are the answer. */
  lemma WinIffExact(row: seq<Guess>, answer: seq<string>)
    requires |row| == |answer|
    ensures AllGreen(Score(row, answer)) <==> Values(row) == answer
  {
    var r := Score(row, answer);
    if Values(row) == answer {
      assert forall i :: 0 <= i < |row| ==> row[i].value == answer[i] by {
        forall i | 0 <= i < |row| ensures row[i].value == answer[i] {
          assert Values(row)[i] == row[i].value;
        }
      }
    }
  }

  /** The revealed row is its own evaluation: scoring it changes nothing. */
  lemma RevealedIsAnswer(answer: seq<string>)
    ensures Score(Revealed(answer), answer) == Revealed(answer)
  {
  }

  /** A repeated value in the answer cannot be entered in one row, since the duplicate
      guard refuses it: such a question can only be lost. */
  lemma RepeatedAnswerUnwinnable(row: seq<Guess>, answer: seq<string>, i: nat, j: nat)
    requires IsOpenRow(row) && |row| == |answer|
    requires i < j < |answer| && answer[i] == answer[j] && answer[i] != ""
    ensures !AllGreen(Score(row, answer))
  {
    WinIffExact(row, answer);
  }

  /** Two different full guesses can share a history key, because values are joined
      with no separator: once the first is submitted, the second is refused as
      already used. */
  lemma KeyCollision()
    ensures var first := UnscoredRow(["ab", "c", "x", "y", "z"]);
            var second := UnscoredRow(["a", "bc", "x", "y", "z"]);
            && IsOpenRow(first) && IsOpenRow(second)
            && FilledCount(first) == Width && FilledCount(second) == Width
            && Values(first) != Values(second) && Key(first) == Key(second)
  {
    var vs, ws := ["ab", "c", "x", "y", "z"], ["a", "bc", "x", "y", "z"];
    DistinctHeadsOpen(vs, "acxyz");
    DistinctHeadsOpen(ws, "abxyz");
    assert Concat(vs) == Concat(ws) by {
      assert vs == ["ab", "c"] + ["x", "y", "z"] && ws == ["a", "bc"] + ["x", "y", "z"];
      JoinCollides("ab", "c", "a", "bc", ["x", "y", "z"]);
    }
    assert vs[0] != ws[0];
  }

  /** A row of unscored slots holding the given values. */
  function UnscoredRow(vs: seq<string>): seq<Guess> {
    seq(|vs|, i requires 0 <= i < |vs| => Guess(vs[i], Unscored))
  }

  /** Unscored values starting with pairwise different letters make a full open row. */
  lemma DistinctHeadsOpen(vs: seq<string>, heads: string)
    requires |vs| == |heads|
    requires forall i :: 0 <= i < |vs| ==> vs[i] != "" && vs[i][0] == heads[i]
    requires forall i, j :: 0 <= i < j < |heads| ==> heads[i] != heads[j]
    ensures var row := UnscoredRow(vs);
            IsOpenRow(row) && FilledCount(row) == |vs| && Values(row) == vs
  {
  }

  /** Two pairs of strings with the same text join to the same text, whatever follows. */
  lemma JoinCollides(a: string, b: string, c: string, d: string, tail: seq<string>)
    requires a + b == c + d
    ensures Concat([a, b] + tail) == Concat([c, d] + tail)
  {
    PairJoin(a, b, tail);
    PairJoin(c, d, tail);
  }

  lemma PairJoin(a: string, b: string, tail: seq<string>)
    ensures Concat([a, b] + tail) == (a + b) + Concat(tail)
  {
    var t := Concat(tail);
    calc {
      Concat([a, b] + tail);
      { assert [a, b] + tail == [a] + ([b] + tail); }
      Concat([a] + ([b] + tail));
      { ConcatCons(a, [b] + tail); }
      a + Concat([b] + tail);
      { ConcatCons(b, tail); }
      a + (b + t);
      (a + b) + t;
    }
  }

  lemma ConcatCons(x: string, xs: seq<string>)
    ensures Concat([x] + xs) == x + Concat(xs)
  {
    assert ([x] + xs)[1..] == xs;
  }

  /** The scoring rule on a concrete guess: answer A,B,C,D,E and guess A,C,B,X,E give
      green, yellow, yellow, gray, green. */
  lemma ScoreExample()
    ensures var answer := ["A", "B", "C", "D", "E"];
            var row := [Guess("A", Unscored), Guess("C", Unscored), Guess("B", Unscored),
                        Guess("X", Unscored), Guess("E", Unscored)];
            Score(row, answer) == [Guess("A", Green), Guess("C", Yellow), Guess("B", Yellow),
                                   Guess("X", Gray), Guess("E", Green)]
  {
    var answer := ["A", "B", "C", "D", "E"];
    assert "X" !in answer;
  }
}
