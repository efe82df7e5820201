/**
  The game itself: guess validation, the per-letter colours, and the
  session that records guesses and counts attempts down until the word is
  found or the attempts run out.
 */
module WordleGame {
  import opened Text
  import opened Wrappers
  import WordPool

  const MAX_ATTEMPTS: nat := 8
  const WORD_LENGTH: nat := 5

  // ---------------------------------------------------------------------
  // Guess validation

  /** What the guess check accepts: exactly five letters A-Z. */
  predicate IsWord(w: string)
  {
    |w| == WORD_LENGTH && forall k :: 0 <= k < |w| ==> IsUpperLetter(w[k])
  }

  predicate AllLetters(s: string) { forall k :: 0 <= k < |s| ==> IsLetter(s[k]) }

  /** The typed text is upper-cased, then trimmed, then checked; a failing text is no guess. */
  function Validate(raw: string): (r: Option<string>)
    ensures r.Some? ==> IsWord(r.value)
  {
    if IsWord(Trim(ToUpper(raw))) then Some(Trim(ToUpper(raw))) else None
  }

  /** Five ASCII letters of either case, with any blanks around them, are accepted, upper-cased. */
  lemma ValidateAccepts(pre: string, core: string, post: string)
    requires AllBlank(pre) && AllBlank(post)
    requires |core| == WORD_LENGTH && AllLetters(core)
    ensures Validate(pre + core + post) == Some(ToUpper(core))
  {
    UpperConcat(pre + core, post);
    UpperConcat(pre, core);
    var u := ToUpper(core);
    assert forall k :: 0 <= k < |u| ==> IsUpperLetter(u[k]);
    TrimBetweenBlanks(ToUpper(pre), u, ToUpper(post));
  }

  /** Conversely, an accepted text is exactly five ASCII letters with blanks around them. */
  lemma ValidateShape(raw: string)
    requires Validate(raw).Some?
    ensures exists i ::
              && 0 <= i && i + WORD_LENGTH <= |raw|
              && AllBlank(raw[..i]) && AllBlank(raw[i + WORD_LENGTH..])
              && AllLetters(raw[i..i + WORD_LENGTH])
              && Validate(raw).value == ToUpper(raw[i..i + WORD_LENGTH])
  {
    TrimUpperCommute(raw);
    var st := FirstNonBlank(raw, 0);
    var e := EndNonBlank(raw, st, |raw|);
    assert Validate(raw).value == ToUpper(raw[st..e]);
    UpperWordLetters(raw[st..e]);
    assert e == st + WORD_LENGTH;
    assert AllBlank(raw[..st]);
    assert AllBlank(raw[e..]);
  }

  /** Text that upper-cases to a word was made of letters. */
  lemma UpperWordLetters(x: string)
    requires IsWord(ToUpper(x))
    ensures AllLetters(x)
  {
    var u := ToUpper(x);
    assert forall k :: 0 <= k < |x| ==> IsUpperLetter(u[k]) && u[k] == UpperChar(x[k]);
  }

  /** A four-character text with digits is refused. */
  lemma ValidateRefusesShort()
    ensures Validate("AB12") == None
  {
    assert |Trim(ToUpper("AB12"))| <= 4;
  }

  /** Surrounding blanks are dropped and the letters upper-cased. */
  lemma ValidateAcceptsPadded()
    ensures Validate(" crane ") == Some("CRANE")
  {
    assert ToUpper(" crane ") == " " + "CRANE" + " ";
    TrimBetweenBlanks(" ", "CRANE", " ");
    assert IsWord("CRANE");
  }

  // ---------------------------------------------------------------------
  // Per-letter feedback

  datatype Colour = Green | Yellow | Red

  type Row = seq<Colour>

  /** The row shown for a correct guess without looking at the letters. */
  const ALL_GREEN: Row := [Green, Green, Green, Green, Green]

  /** One position's colour, decided on its own: no count of how often a letter occurs. */
  function LetterColour(guess: string, secret: string, i: nat): (c: Colour)
    requires i < |guess| && i < |secret|
    ensures c == Green <==> guess[i] == secret[i]
    ensures c == Yellow <==> guess[i] != secret[i] && guess[i] in secret
    ensures c == Red <==> guess[i] !in secret
  {
    if guess[i] == secret[i] then Green
    else if guess[i] in secret then Yellow
    else Red
  }

  /** The colours of the five positions of a guess, in order. */
  function Feedback(guess: string, secret: string): (row: Row)
    requires |guess| >= WORD_LENGTH && |secret| >= WORD_LENGTH
    ensures |row| == WORD_LENGTH
    ensures forall i :: 0 <= i < WORD_LENGTH ==> (row[i] == Green <==> guess[i] == secret[i])
    ensures forall i :: 0 <= i < WORD_LENGTH ==> (row[i] == Yellow <==> guess[i] != secret[i] && guess[i] in secret)
    ensures forall i :: 0 <= i < WORD_LENGTH ==> (row[i] == Red <==> guess[i] !in secret)
  {
    seq(WORD_LENGTH, i requires 0 <= i < WORD_LENGTH => LetterColour(guess, secret, i))
  }

  /** A five-letter guess is all green exactly when it is the secret. */
  lemma AllGreenIffSecret(guess: string, secret: string)
    requires |guess| == WORD_LENGTH && |secret| == WORD_LENGTH
    ensures Feedback(guess, secret) == ALL_GREEN <==> guess == secret
  {
    if Feedback(guess, secret) == ALL_GREEN {
      assert forall i :: 0 <= i < WORD_LENGTH ==> guess[i] == secret[i];
    }
  }

  /** The all-green shortcut for a correct guess agrees with the positional rule. */
  lemma ShortcutAgrees(secret: string)
    requires |secret| >= WORD_LENGTH
    ensures Feedback(secret, secret) == ALL_GREEN
  {
  }

  /**
    Every misplaced copy of a letter is yellow, however often the secret
    holds it: two positions with the same letter and no exact match get the
    same colour.
   */
  lemma NoLetterBudget(guess: string, secret: string, i: nat, j: nat)
    requires |guess| >= WORD_LENGTH && |secret| >= WORD_LENGTH
    requires i < WORD_LENGTH && j < WORD_LENGTH && guess[i] == guess[j]
    requires guess[i] != secret[i] && guess[j] != secret[j]
    ensures Feedback(guess, secret)[i] == Feedback(guess, secret)[j]
  {
  }

  /** LLAMA against ALLOT: both A's are yellow although ALLOT has a single A. */
  lemma NoLetterBudgetExample()
    ensures Feedback("LLAMA", "ALLOT") == [Yellow, Green, Yellow, Red, Yellow]
  {
    var row := Feedback("LLAMA", "ALLOT");
    assert "ALLOT"[1] == 'L' && "ALLOT"[0] == 'A';
    assert 'M' !in "ALLOT";
  }

  // ---------------------------------------------------------------------
  // The session, as values

  datatype Status = Playing | Won | Lost

  /** The game's state: the secret, the attempts left, the accepted guesses and the rows shown. */
  datatype Session = Session(secret: string, attemptsLeft: int, guesses: seq<string>, board: seq<Row>, status: Status)

  /** What one submission answers: refused text, a shown row, the end of the game, or nothing once over. */
  datatype Response = Invalid | Continue(row: Row) | Win(row: Row) | Loss(secret: string) | Finished

  /** The state set up at start: all attempts left, nothing guessed, nothing shown. */
  function Initial(secret: string): (s: Session)
    ensures |secret| >= WORD_LENGTH ==> Inv(s)
  {
    Session(secret, MAX_ATTEMPTS, [], [], Playing)
  }

  /** The state every reachable session is in. */
  predicate Inv(s: Session)
  {
    && |s.secret| >= WORD_LENGTH
    && 0 <= s.attemptsLeft
    && s.attemptsLeft + |s.guesses| == MAX_ATTEMPTS
    && (forall k :: 0 <= k < |s.guesses| ==> IsWord(s.guesses[k]))
    && (forall k :: 0 <= k < |s.guesses| - 1 ==> s.guesses[k] != s.secret)
    && (s.status == Won <==> s.guesses != [] && s.guesses[|s.guesses| - 1] == s.secret)
    && (s.status == Lost ==> s.attemptsLeft == 0)
    && (s.status == Playing ==> 0 < s.attemptsLeft)
    && |s.board| == (if s.status == Lost then |s.guesses| - 1 else |s.guesses|)
    && (forall k :: 0 <= k < |s.board| ==> s.board[k] == Feedback(s.guesses[k], s.secret))
  }

  /**
    One submission. A refused text changes nothing; an accepted guess is
    recorded and costs one attempt, then the game is won (all-green row),
    lost (no row) or goes on (the guess's row). A finished game ignores input.
   */
  function Step(s: Session, raw: string): (r: (Session, Response))
    requires |s.secret| >= WORD_LENGTH
    ensures r.0.secret == s.secret
    ensures r.1.Finished? <==> s.status != Playing
    ensures r.1.Invalid? <==> s.status == Playing && Validate(raw).None?
    ensures r.1.Finished? || r.1.Invalid? ==> r.0 == s
    ensures !(r.1.Finished? || r.1.Invalid?) ==>
      r.0.guesses == s.guesses + [Validate(raw).value] && r.0.attemptsLeft == s.attemptsLeft - 1
  {
    if s.status != Playing then (s, Finished)
    else if Validate(raw).None? then (s, Invalid)
    else Accept(s, Validate(raw).value)
  }

  /** An accepted guess: recorded, one attempt spent, then won, lost or continued. */
  function Accept(s: Session, guess: string): (r: (Session, Response))
    requires |s.secret| >= WORD_LENGTH && |guess| == WORD_LENGTH
    ensures r.0.secret == s.secret && r.0.guesses == s.guesses + [guess] && r.0.attemptsLeft == s.attemptsLeft - 1
    ensures r.0.status == Won <==> guess == s.secret
    ensures r.0.status == Lost <==> guess != s.secret && s.attemptsLeft <= 1
    ensures r.0.status == Lost ==> r.0.board == s.board && r.1 == Loss(s.secret)
    ensures r.0.status != Lost ==>
              && (r.1.Win? || r.1.Continue?)
              && r.1.row == Feedback(guess, s.secret)
              && r.0.board == s.board + [r.1.row]
  {
    ShortcutAgrees(s.secret);
    if guess == s.secret then
      (Session(s.secret, s.attemptsLeft - 1, s.guesses + [guess], s.board + [ALL_GREEN], Won), Win(ALL_GREEN))
    else if s.attemptsLeft - 1 <= 0 then
      (Session(s.secret, s.attemptsLeft - 1, s.guesses + [guess], s.board, Lost), Loss(s.secret))
    else
      (Session(s.secret, s.attemptsLeft - 1, s.guesses + [guess], s.board + [Feedback(guess, s.secret)], Playing),
       Continue(Feedback(guess, s.secret)))
  }

  /** The session after a series of submissions. */
  function Play(s: Session, raws: seq<string>): (t: Session)
    requires |s.secret| >= WORD_LENGTH
    ensures t.secret == s.secret
    decreases |raws|
  {
    if raws == [] then s else Play(Step(s, raws[0]).0, raws[1..])
  }

  // ---------------------------------------------------------------------
  // Properties of the session

  /** Every submission keeps the invariant. */
  lemma StepInv(s: Session, raw: string)
    requires Inv(s)
    ensures Inv(Step(s, raw).0)
  {
    if s.status == Playing && Validate(raw).Some? {
      AcceptInv(s, Validate(raw).value);
    }
  }

  /** Recording an accepted guess keeps the invariant. */
  lemma AcceptInv(s: Session, guess: string)
    requires Inv(s) && s.status == Playing && IsWord(guess)
    ensures Inv(Accept(s, guess).0)
  {
    var t := Accept(s, guess).0;
    assert forall k :: 0 <= k < |s.guesses| ==> t.guesses[k] == s.guesses[k];
    if guess == s.secret {
      ShortcutAgrees(s.secret);
    }
  }

  /**
    What an accepted guess leads to: the secret is the only winning guess and
    its row is all green and agrees with the positional rule; a miss on the
    last attempt loses and shows no row; any other miss shows its row.
   */
  lemma StepOutcome(s: Session, raw: string)
    requires Inv(s) && s.status == Playing && Validate(raw).Some?
    ensures var (t, resp) := Step(s, raw); var guess := Validate(raw).value;
      && (guess == s.secret ==> t.status == Won && resp == Win(Feedback(guess, s.secret)) && resp.row == ALL_GREEN
                                && t.board == s.board + [resp.row])
      && (guess != s.secret && s.attemptsLeft == 1 ==>
            t.status == Lost && resp == Loss(s.secret) && t.board == s.board && t.attemptsLeft == 0)
      && (guess != s.secret && s.attemptsLeft > 1 ==>
            t.status == Playing && resp == Continue(Feedback(guess, s.secret)) && t.board == s.board + [resp.row])
  {
    ShortcutAgrees(s.secret);
  }

  /** A secret that is not five letters long can never be guessed. */
  lemma OverlongSecretNeverWon(s: Session, raw: string)
    requires Inv(s) && |s.secret| != WORD_LENGTH
    ensures Step(s, raw).0.status != Won
  {
  }

  /** Every state reachable from the start satisfies the invariant, so attempts never go negative. */
  lemma {:induction false} PlayInv(s: Session, raws: seq<string>)
    requires Inv(s)
    ensures Inv(Play(s, raws))
    decreases |raws|
  {
    if raws != [] {
      StepInv(s, raws[0]);
      PlayInv(Step(s, raws[0]).0, raws[1..]);
    }
  }

  /** Once won or lost, the game ignores every further submission. */
  lemma {:induction false} FinishedIsFinal(s: Session, raws: seq<string>)
    requires |s.secret| >= WORD_LENGTH && s.status != Playing
    ensures Play(s, raws) == s
    decreases |raws|
  {
    if raws != [] {
      FinishedIsFinal(s, raws[1..]);
    }
  }

  /** Attempts never increase, whatever is submitted. */
  lemma {:induction false} AttemptsNeverIncrease(s: Session, raws: seq<string>)
    requires |s.secret| >= WORD_LENGTH
    ensures Play(s, raws).attemptsLeft <= s.attemptsLeft
    decreases |raws|
  {
    if raws != [] {
      AttemptsNeverIncrease(Step(s, raws[0]).0, raws[1..]);
    }
  }

  /** Accepted texts that all miss the secret. */
  predicate AllMisses(raws: seq<string>, secret: string)
  {
    forall k :: 0 <= k < |raws| ==> Validate(raws[k]).Some? && Validate(raws[k]).value != secret
  }

  /** As many misses as attempts are left end the game in a loss with no attempts left. */
  lemma {:induction false} MissesLose(s: Session, raws: seq<string>)
    requires Inv(s) && s.status == Playing
    requires |raws| == s.attemptsLeft && AllMisses(raws, s.secret)
    ensures Play(s, raws).status == Lost && Play(s, raws).attemptsLeft == 0
    ensures |Play(s, raws).guesses| == MAX_ATTEMPTS
    decreases |raws|
  {
    var t := Step(s, raws[0]).0;
    StepInv(s, raws[0]);
    if |raws| == 1 {
      assert Play(t, []) == t;
    } else {
      assert AllMisses(raws[1..], t.secret) by {
        forall k | 0 <= k < |raws| - 1 ensures raws[1..][k] == raws[k + 1] { }
      }
      MissesLose(t, raws[1..]);
    }
  }

  /** Eight accepted guesses that all miss lose a fresh game. */
  lemma EightMissesLose(secret: string, raws: seq<string>)
    requires |secret| >= WORD_LENGTH
    requires |raws| == MAX_ATTEMPTS && AllMisses(raws, secret)
    ensures Play(Initial(secret), raws).status == Lost
    ensures Play(Initial(secret), raws).attemptsLeft == 0
  {
    MissesLose(Initial(secret), raws);
  }

  // ---------------------------------------------------------------------
  // The session, as the object the game updates

  class Game {
    const secret: string
    var attemptsLeft: int
    var guesses: seq<string>
    /** The feedback rows shown so far, one per displayed guess. */
    var board: seq<Row>
    /** Won and Lost stand for the points where the program exits. */
    var status: Status

    function Model(): Session
      reads this
    {
      Session(secret, attemptsLeft, guesses, board, status)
    }

    ghost predicate Valid()
      reads this
    {
      Inv(Model())
    }

    constructor (secret: string)
      requires |secret| >= WORD_LENGTH
      ensures Valid() && Model() == Initial(secret)
    {
      this.secret := secret;
      attemptsLeft := MAX_ATTEMPTS;
      guesses := [];
      board := [];
      status := Playing;
    }

    /** Colours the guess position by position and adds the row to the board. */
    method DisplayHint(guess: string, isCorrectGuess: bool) returns (row: Row)
      requires |guess| == WORD_LENGTH && |secret| >= WORD_LENGTH
      modifies this`board
      ensures row == if isCorrectGuess then ALL_GREEN else Feedback(guess, secret)
      ensures board == old(board) + [row]
    {
      ghost var want := if isCorrectGuess then ALL_GREEN else Feedback(guess, secret);
      row := [];
      for i := 0 to WORD_LENGTH
        invariant row == want[..i]
      {
        var c: Colour;
        if isCorrectGuess {
          c := Green;
        } else if guess[i] == secret[i] {
          c := Green;
        } else if guess[i] in secret {
          c := Yellow;
        } else {
          c := Red;
        }
        row := row + [c];
      }
      board := board + [row];
    }

    /** Handles one submitted text, as the button and the Enter key do. */
    method ProcessGuess(raw: string) returns (resp: Response)
      requires Valid()
      modifies this
      ensures (Model(), resp) == Step(old(Model()), raw)
      ensures Valid()
    {
      StepInv(Model(), raw);
      if status != Playing {
        return Finished;
      }
      var guess := Trim(ToUpper(raw));
      if !IsWord(guess) {
        return Invalid;
      }
      resp := RecordGuess(guess);
    }

    /** The accepted-guess part of the handler: record, spend an attempt, then win, lose or go on. */
    method RecordGuess(guess: string) returns (resp: Response)
      requires |guess| == WORD_LENGTH && |secret| >= WORD_LENGTH && status == Playing
      modifies this
      ensures (Model(), resp) == Accept(old(Model()), guess)
    {
      guesses := guesses + [guess];
      attemptsLeft := attemptsLeft - 1;
      if guess == secret {
        var row := DisplayHint(guess, true);
        status := Won;
        resp := Win(row);
      } else if attemptsLeft <= 0 {
        status := Lost;
        resp := Loss(secret);
      } else {
        var row := DisplayHint(guess, false);
        resp := Continue(row);
      }
    }
  }

  /**
    Start-up: load the words, refuse to start on an empty list, otherwise
    start a game on the word at the drawn index.
   */
  method Start(lines: seq<string>, k: nat) returns (game: Game?)
    requires WordPool.Loaded(lines) != [] ==>
               k < |WordPool.Loaded(lines)| && |WordPool.Loaded(lines)[k]| >= WORD_LENGTH
    ensures game == null <==> WordPool.Loaded(lines) == []
    ensures game != null ==>
              fresh(game) && game.Valid() && game.Model() == Initial(WordPool.Loaded(lines)[k])
  {
    var words := WordPool.LoadWords(lines);
    var secret := WordPool.ChooseSecret(words, k);
    if secret.None? {
      return null;
    }
    game := new Game(secret.value);
  }
}
