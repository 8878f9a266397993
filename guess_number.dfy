/** `guess_the_number`: a text game with a hidden number in 1..100 and seven attempts. The
    random target and the entries typed are parameters; an entry is `Some(n)` when `int()`
    accepts it and `None` when it raises `ValueError`. What the game prints is returned as a
    trace of events. */
module GuessNumber {
  import opened Common

  const StartingAttempts: int := 7

  /** One line the game prints (a prompt is what `input` shows before it reads). */
  datatype Event =
    | Intro
    | Prompt(attemptsLeft: int)
    | Congratulations(number: int)
    | TooLow
    | TooHigh
    | InvalidEntry
    | GameOver(number: int)

  /** How the game ends: guessed, out of attempts, or with `input` raising `EOFError` because
      there is nothing left to read. */
  datatype Ending = Won | Lost | OutOfInput

  /** The trace from some point on, how it ends, the attempts left at the end and how many
      entries have been read by then. */
  datatype Outcome = Outcome(trace: seq<Event>, ending: Ending, attempts: int, read: nat)

  /** The reply to a valid guess. */
  function Feedback(target: int, guess: int): (e: Event)
    ensures e == Congratulations(target) <==> guess == target
    ensures e == TooLow <==> guess < target
    ensures e == TooHigh <==> guess > target
  {
    if guess == target then Congratulations(target)
    else if guess < target then TooLow
    else TooHigh
  }

  /** The loop from the state `(read, attempts, guessed)` on. */
  function Run(target: int, inputs: seq<Option<int>>, read: nat, attempts: int, guessed: bool): (o: Outcome)
    requires read <= |inputs|
    ensures read <= o.read <= |inputs|
    decreases |inputs| - read
  {
    if !(attempts > 0 && !guessed) then
      Outcome(if guessed then [] else [GameOver(target)], if guessed then Won else Lost, attempts, read)
    else if read == |inputs| then
      Outcome([Prompt(attempts)], OutOfInput, attempts, read)
    else
      match inputs[read]
      case None =>
        var rest := Run(target, inputs, read + 1, attempts + 1, false);
        rest.(trace := [Prompt(attempts), InvalidEntry] + rest.trace)
      case Some(guess) =>
        var rest := Run(target, inputs, read + 1, attempts - 1, guess == target);
        rest.(trace := [Prompt(attempts), Feedback(target, guess)] + rest.trace)
  }

  /** The whole game after the opening line. */
  function Play(target: int, inputs: seq<Option<int>>): (o: Outcome)
    ensures o.read <= |inputs|
  {
    Run(target, inputs, 0, StartingAttempts, false)
  }

  /** `guess_the_number()`: the `while` loop over `attempts` and `guessed`. */
  method GuessTheNumber(target: int, inputs: seq<Option<int>>) returns (trace: seq<Event>, ending: Ending)
    requires 1 <= target <= 100
    ensures trace == [Intro] + Play(target, inputs).trace
    ensures ending == Play(target, inputs).ending
  {
    var attempts := StartingAttempts;
    var guessed := false;
    var read := 0;
    trace := [Intro];
    while attempts > 0 && !guessed
      invariant read <= |inputs|
      invariant trace + Run(target, inputs, read, attempts, guessed).trace == [Intro] + Play(target, inputs).trace
      invariant Run(target, inputs, read, attempts, guessed).ending == Play(target, inputs).ending
      decreases |inputs| - read
    {
      ghost var rest := Run(target, inputs, read, attempts, guessed);
      if read == |inputs| {
        trace := trace + [Prompt(attempts)];
        ending := OutOfInput;
        return;
      }
      var entry := inputs[read];
      read := read + 1;
      match entry {
        case None =>
          assert rest.trace == [Prompt(attempts), InvalidEntry] + Run(target, inputs, read, attempts + 1, false).trace;
          trace := trace + [Prompt(attempts), InvalidEntry];
          attempts := attempts + 1;
        case Some(guess) =>
          var reply := Feedback(target, guess);
          assert rest.trace == [Prompt(attempts), reply] + Run(target, inputs, read, attempts - 1, guess == target).trace;
          attempts := attempts - 1;
          if guess == target {
            guessed := true;
          }
          trace := trace + [Prompt(attempts + 1), reply];
      }
    }
    if !guessed {
      trace := trace + [GameOver(target)];
    }
    ending := if guessed then Won else Lost;
  }

  /** How many of the entries are valid integers, and how many are not. */
  function ValidCount(entries: seq<Option<int>>): nat
  {
    if entries == [] then 0 else (if entries[0].Some? then 1 else 0) + ValidCount(entries[1..])
  }

  function InvalidCount(entries: seq<Option<int>>): nat
  {
    if entries == [] then 0 else (if entries[0].None? then 1 else 0) + InvalidCount(entries[1..])
  }

  /** The attempts counter ends at its start, less one per valid guess read, plus one per
      invalid entry read: an invalid entry does not merely cost nothing, it adds an attempt. */
  lemma {:induction false} AttemptsBookkeeping(target: int, inputs: seq<Option<int>>, read: nat, attempts: int, guessed: bool)
    requires read <= |inputs|
    ensures var o := Run(target, inputs, read, attempts, guessed);
      o.attempts == attempts - ValidCount(inputs[read..o.read]) + InvalidCount(inputs[read..o.read])
    decreases |inputs| - read
  {
    var o := Run(target, inputs, read, attempts, guessed);
    if attempts > 0 && !guessed && read < |inputs| {
      var next := match inputs[read] case None => attempts + 1 case Some(_) => attempts - 1;
      var nowGuessed := inputs[read] == Some(target);
      AttemptsBookkeeping(target, inputs, read + 1, next, nowGuessed);
      assert o.read == Run(target, inputs, read + 1, next, nowGuessed).read;
      assert inputs[read..o.read][1..] == inputs[read + 1..o.read];
    } else {
      assert inputs[read..o.read] == [];
    }
  }

  /** For the whole game: the final count is 7 minus the valid guesses plus the invalid entries. */
  lemma GameAttempts(target: int, inputs: seq<Option<int>>)
    ensures Play(target, inputs).attempts
      == StartingAttempts - ValidCount(inputs[..Play(target, inputs).read]) + InvalidCount(inputs[..Play(target, inputs).read])
  {
    AttemptsBookkeeping(target, inputs, 0, StartingAttempts, false);
    assert inputs[0..Play(target, inputs).read] == inputs[..Play(target, inputs).read];
  }

  /** When every entry is a valid integer, at most as many entries are read as there are
      attempts left, so the game reads at most seven guesses. */
  lemma {:induction false} ValidGuessesBounded(target: int, inputs: seq<Option<int>>, read: nat, attempts: int, guessed: bool)
    requires read <= |inputs|
    requires forall k :: read <= k < |inputs| ==> inputs[k].Some?
    ensures Run(target, inputs, read, attempts, guessed).read <= read + (if attempts > 0 then attempts else 0)
    decreases |inputs| - read
  {
    if attempts > 0 && !guessed && read < |inputs| {
      var guess := inputs[read].value;
      ValidGuessesBounded(target, inputs, read + 1, attempts - 1, guess == target);
    }
  }

  lemma AtMostSevenGuesses(target: int, inputs: seq<Option<int>>)
    requires forall k :: 0 <= k < |inputs| ==> inputs[k].Some?
    ensures Play(target, inputs).read <= 7
    ensures |inputs| >= 7 ==> Play(target, inputs).ending != OutOfInput
  {
    ValidGuessesBounded(target, inputs, 0, StartingAttempts, false);
    OutOfInputReadsAll(target, inputs, 0, StartingAttempts, false);
    if |inputs| >= 7 && Play(target, inputs).ending == OutOfInput {
      ValidGuessesStop(target, inputs, 0, StartingAttempts);
    }
  }

  /** The game runs out of input only after reading every entry. */
  lemma {:induction false} OutOfInputReadsAll(target: int, inputs: seq<Option<int>>, read: nat, attempts: int, guessed: bool)
    requires read <= |inputs|
    ensures Run(target, inputs, read, attempts, guessed).ending == OutOfInput ==> Run(target, inputs, read, attempts, guessed).read == |inputs|
    decreases |inputs| - read
  {
    if attempts > 0 && !guessed && read < |inputs| {
      match inputs[read] {
        case None => OutOfInputReadsAll(target, inputs, read + 1, attempts + 1, false);
        case Some(guess) => OutOfInputReadsAll(target, inputs, read + 1, attempts - 1, guess == target);
      }
    }
  }

  /** With only valid guesses, and at least as many left as attempts, the game ends by a
      win or by running out of attempts. */
  lemma {:induction false} ValidGuessesStop(target: int, inputs: seq<Option<int>>, read: nat, attempts: int)
    requires read <= |inputs|
    requires forall k :: read <= k < |inputs| ==> inputs[k].Some?
    requires |inputs| - read >= attempts
    ensures Run(target, inputs, read, attempts, false).ending != OutOfInput
    decreases |inputs| - read
  {
    if attempts > 0 {
      var guess := inputs[read].value;
      if guess != target {
        ValidGuessesStop(target, inputs, read + 1, attempts - 1);
      }
    }
  }

  /** The game is won exactly when the last entry read is the target, and the guesses
      before it all missed: a correct guess ends the loop and nothing more is read. */
  lemma {:induction false} WonOnTarget(target: int, inputs: seq<Option<int>>, read: nat, attempts: int)
    requires read <= |inputs|
    requires attempts > 0
    ensures var o := Run(target, inputs, read, attempts, false);
      (o.ending == Won <==> read < o.read && inputs[o.read - 1] == Some(target))
      && (forall k :: read <= k < o.read - 1 ==> inputs[k] != Some(target))
    decreases |inputs| - read
  {
    var o := Run(target, inputs, read, attempts, false);
    if read < |inputs| {
      match inputs[read] {
        case None =>
          WonOnTarget(target, inputs, read + 1, attempts + 1);
        case Some(guess) =>
          if guess != target && attempts - 1 > 0 {
            WonOnTarget(target, inputs, read + 1, attempts - 1);
          } else {
            assert o.read == read + 1;
          }
      }
    }
  }

  lemma GameWonOnTarget(target: int, inputs: seq<Option<int>>)
    ensures Play(target, inputs).ending == Won <==>
      Play(target, inputs).read > 0 && inputs[Play(target, inputs).read - 1] == Some(target)
    ensures forall k :: 0 <= k < Play(target, inputs).read - 1 ==> inputs[k] != Some(target)
  {
    WonOnTarget(target, inputs, 0, StartingAttempts);
  }

  /** "Game over" is printed exactly when the attempts run out without a correct guess, and
      then it is the last line. */
  lemma {:induction false} GameOverIffLost(target: int, inputs: seq<Option<int>>, read: nat, attempts: int, guessed: bool)
    requires read <= |inputs|
    ensures var o := Run(target, inputs, read, attempts, guessed);
      (GameOver(target) in o.trace <==> o.ending == Lost)
      && (o.ending == Lost ==> o.trace[|o.trace| - 1] == GameOver(target))
    decreases |inputs| - read
  {
    if attempts > 0 && !guessed && read < |inputs| {
      match inputs[read] {
        case None =>
          GameOverIffLost(target, inputs, read + 1, attempts + 1, false);
        case Some(guess) =>
          GameOverIffLost(target, inputs, read + 1, attempts - 1, guess == target);
      }
    }
  }

  lemma {:induction false} CountsAddUp(entries: seq<Option<int>>)
    ensures ValidCount(entries) + InvalidCount(entries) == |entries|
  {
    if entries != [] {
      CountsAddUp(entries[1..]);
    }
  }

  /** Wrong valid guesses, at least as many as the attempts left, use up every attempt: the
      game is lost after reading exactly that many. */
  lemma {:induction false} WrongGuessesExhaust(target: int, inputs: seq<Option<int>>, read: nat, attempts: nat)
    requires read + attempts <= |inputs|
    requires forall k :: read <= k < |inputs| ==> inputs[k].Some? && inputs[k] != Some(target)
    ensures var o := Run(target, inputs, read, attempts, false);
      o.ending == Lost && o.read == read + attempts && o.attempts == 0
    decreases attempts
  {
    if attempts > 0 {
      WrongGuessesExhaust(target, inputs, read + 1, attempts - 1);
    }
  }

  /** With the target 50, one invalid entry followed by nothing but wrong guesses lets eight
      guesses in, not seven. */
  lemma InvalidEntryBuysAGuess()
    ensures var inputs := [None] + seq(8, _ => Some(1));
      Play(50, inputs).ending == Lost
      && Play(50, inputs).read == 9
      && ValidCount(inputs[..Play(50, inputs).read]) == 8
  {
    var inputs := [None] + seq(8, _ => Some(1));
    WrongGuessesExhaust(50, inputs, 1, 8);
    assert Play(50, inputs) == Run(50, inputs, 1, 8, false).(trace := [Prompt(7), InvalidEntry] + Run(50, inputs, 1, 8, false).trace);
    GameAttempts(50, inputs);
    CountsAddUp(inputs[..9]);
  }
}
