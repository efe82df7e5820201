# Wordle game core

A model of the game logic in `WordleGameGui.java`, a Swing Wordle clone.
The secret is drawn from a comma-separated word file and the player has
eight attempts to guess it. Each guess gets a row of per-letter colours.
The model covers four parts.

- **Word list** (module `WordPool`). Every line is split at commas the way
  Java's `String.split(",")` does. Every piece is trimmed and upper-cased,
  then appended in line order and comma order. Nothing is filtered out.
  The secret is the entry at a drawn index.
- **Guess validation** (`WordleGame.Validate`). The typed text is
  upper-cased, then trimmed. It is accepted only when exactly five
  characters `A`-`Z` remain.
- **Feedback** (`WordleGame.Feedback`). Each position is coloured on its
  own:
  - green when the letters match;
  - yellow when the letter occurs anywhere in the secret;
  - red otherwise.

  There is no duplicate-letter budgeting: every misplaced copy of a letter
  the secret contains is yellow.
- **Session**. The state is the secret, the attempts left, the guess
  history and the rows shown. It is specified as a value transition
  (`WordleGame.Step`) and implemented by the class `WordleGame.Game`,
  whose methods update its fields as the static fields of the program are
  updated.
  - An accepted guess is recorded and costs one attempt.
  - If it equals the secret, the game is won and an all-green row is shown.
  - If it leaves no attempts, the game is lost and no row is shown.
  - Otherwise the guess's row is shown.
  - The program exits on a win or a loss. Here that exit is a terminal
    status, `Won` or `Lost`, and any further submission is answered
    `Finished` with no change.

The small module `Text` holds the ASCII upper-casing and Java's `trim`,
which removes every character up to `' '` from both ends. `Wrappers` holds
`Option`.

The code sets `MAX_ATTEMPTS` to 8 (`WordleGameGui.java:23`), although the
file's header comment speaks of 6 attempts. The model follows the code.

## Model

| member | source | states |
|---|---|---|
| Text.UpperChar | WordleGameGui.java:117 | a lower-case ASCII letter becomes the upper-case letter at the same offset; every other character is unchanged; the result is never a lower-case letter |
| Text.ToUpper | WordleGameGui.java:117 | upper-casing keeps the length |
| Text.FirstNonBlank | WordleGameGui.java:117 | the start index of trim: everything skipped is blank, and the character found is not |
| Text.EndNonBlank | WordleGameGui.java:117 | the end index of trim: everything cut off is blank, and the last character kept is not |
| Text.Trim | WordleGameGui.java:117 | the trimmed text is no longer than the input and neither starts nor ends with a blank; `TrimBetweenBlanks` pins it down on every input |
| Text.TrimBetweenBlanks | WordleGameGui.java:117 | trim returns exactly the text between two blank runs when that text neither starts nor ends with a blank |
| Text.TrimUpperCommute | WordleGameGui.java:102 | trimming then upper-casing (the word list) equals upper-casing then trimming (the guess field) |
| WordPool.NextSeparator | WordleGameGui.java:100 | the first comma at or after the start, or the end of the text when there is none |
| WordPool.PiecesFrom | WordleGameGui.java:100 | cutting at commas always yields at least one piece |
| WordPool.KeptPieces | WordleGameGui.java:100 | exactly the empty pieces at the end of a split are dropped, and the last piece kept is non-empty |
| WordPool.Split | WordleGameGui.java:100 | a line without a comma is returned whole, even when it is empty |
| WordPool.JoinSplitAll | WordleGameGui.java:100 | joining the pieces with commas gives the line back |
| WordPool.SplitAllJoin | WordleGameGui.java:100 | splitting comma-free pieces joined with commas gives the pieces back |
| WordPool.SplitNoSeparator | WordleGameGui.java:100 | no piece of a split holds a comma |
| WordPool.LastPieceEmpty | WordleGameGui.java:100 | the last raw piece is empty exactly when the text ends in a comma or nothing is left |
| WordPool.SplitKeepsUnterminated | WordleGameGui.java:100 | a non-empty line not ending in a comma keeps every piece, inner empty ones included, and joins back to itself |
| WordPool.SplitDropsOnlyTrailingEmpties | WordleGameGui.java:100 | a line with a comma keeps a prefix of its raw pieces; only empty pieces follow that prefix, and the last piece kept is non-empty, so every empty piece at the end is dropped |
| WordPool.SplitExample | WordleGameGui.java:100 | `" crane, ,Slate ,,"` splits into `" crane"`, `" "` and `"Slate "` |
| WordPool.NormalizeWord | WordleGameGui.java:102 | a piece's word is no longer than the piece and has no blank at either end; `NormalizedWordShape`, `NormalizeExample` and `NormalizeBlankPiece` state the rest |
| WordPool.NormalizeAll | WordleGameGui.java:101-102 | one word per piece |
| WordPool.LineWords | WordleGameGui.java:100-102 | a line contributes one word per piece of its split |
| WordPool.NormalizeExample | WordleGameGui.java:102 | `" crane "` becomes `"CRANE"` |
| WordPool.NormalizeBlankPiece | WordleGameGui.java:102 | a blank piece becomes the empty word, which is kept |
| WordPool.LoadWords | WordleGameGui.java:99-103 | the reading loop builds exactly the concatenation, over the lines in order, of each line's normalised pieces |
| WordPool.AddLine | WordleGameGui.java:100-103 | the inner loop appends the line's normalised pieces, in comma order, after the words already read |
| WordPool.LoadedConcat | WordleGameGui.java:99-103 | loading two runs of lines is loading each and concatenating |
| WordPool.LoadedLine | WordleGameGui.java:99-103 | a single line loads to its own normalised pieces |
| WordPool.LoadedMembership | WordleGameGui.java:99-103 | a word is loaded exactly when it is the normalisation of some piece of some line (both directions) |
| WordPool.NormalizedWordShape | WordleGameGui.java:102 | a normalised piece has no blank at either end and no lower-case letter, and a comma-free piece stays comma-free |
| WordPool.LoadedWordsNormalized | WordleGameGui.java:99-103 | every loaded word has no blank at either end, no lower-case letter and no comma |
| WordPool.SelectWord | WordleGameGui.java:111-114 | the word at an in-range index is an element of the list |
| WordPool.ChooseSecret | WordleGameGui.java:34-39 | an empty list gives no secret; a non-empty one gives an element of the list |
| WordleGame.Validate | WordleGameGui.java:117-122 | an accepted guess is five characters `A`-`Z` |
| WordleGame.ValidateAccepts | WordleGameGui.java:117-119 | five ASCII letters of either case with blanks around them are accepted, upper-cased |
| WordleGame.ValidateShape | WordleGameGui.java:117-119 | conversely, an accepted text is five ASCII letters with only blanks around them, and the guess is those letters upper-cased |
| WordleGame.ValidateRefusesShort | WordleGameGui.java:119-121 | `"AB12"` is refused |
| WordleGame.ValidateAcceptsPadded | WordleGameGui.java:117-119 | `" crane "` is accepted as `"CRANE"` |
| WordleGame.Feedback | WordleGameGui.java:146-158 | five colours, one per position: green exactly when the letters match, yellow exactly when they differ and the secret has the letter, red exactly when the secret lacks it |
| WordleGame.LetterColour | WordleGameGui.java:152-157 | one position is green exactly when the letters match, yellow exactly when they differ and the secret holds the letter anywhere, red exactly when the secret lacks it |
| WordleGame.AllGreenIffSecret | WordleGameGui.java:150-153 | a five-letter guess is all green exactly when it equals a five-letter secret |
| WordleGame.ShortcutAgrees | WordleGameGui.java:150-153 | the all-green row shown on a win is the row the positional rule gives |
| WordleGame.NoLetterBudget | WordleGameGui.java:152-155 | two misplaced copies of one letter get the same colour, however often the secret holds it |
| WordleGame.NoLetterBudgetExample | WordleGameGui.java:152-157 | LLAMA against ALLOT colours both A's yellow although ALLOT has one A |
| WordleGame.Step | WordleGameGui.java:116-137 | a finished game answers `Finished` and a refused text `Invalid`, both with no change; otherwise the guess is appended, one attempt is spent, and the secret is unchanged |
| WordleGame.Play | WordleGameGui.java:116-137 | a series of submissions never changes the secret |
| WordleGame.Initial | WordleGameGui.java:39-41 | the starting state satisfies the session invariant whenever the secret has at least five characters |
| WordleGame.Accept | WordleGameGui.java:124-137 | an accepted guess is appended, costs one attempt and keeps the secret; the game is won exactly when the guess is the secret, lost exactly when it misses with one attempt left (no row, the secret answered), and otherwise the guess's positional row is shown and added to the board |
| WordleGame.StepInv | WordleGameGui.java:124-137 | every submission keeps the invariant: attempts left plus guesses is 8, attempts are never negative, the board holds each shown guess's row, and won means the last guess is the secret |
| WordleGame.AcceptInv | WordleGameGui.java:124-137 | recording an accepted guess keeps the invariant |
| WordleGame.StepOutcome | WordleGameGui.java:128-137 | the secret wins with an all-green row equal to the positional one; a miss on the last attempt loses with no row and no attempts left; any other miss shows its row |
| WordleGame.OverlongSecretNeverWon | WordleGameGui.java:128 | a secret longer than five letters can never be guessed |
| WordleGame.PlayInv | WordleGameGui.java:124-137 | every state reachable by play satisfies the invariant |
| WordleGame.FinishedIsFinal | WordleGameGui.java:131-134 | once won or lost, no submission changes anything |
| WordleGame.AttemptsNeverIncrease | WordleGameGui.java:125 | the attempt counter never goes up |
| WordleGame.MissesLose | WordleGameGui.java:132-134 | as many accepted misses as attempts are left end in a loss, with no attempts left and eight guesses recorded |
| WordleGame.EightMissesLose | WordleGameGui.java:132-134 | eight accepted misses lose a fresh game |
| WordleGame.Game.constructor | WordleGameGui.java:39-41 | a new game holds the secret, 8 attempts, no guesses and no rows, and satisfies the invariant |
| WordleGame.Game.DisplayHint | WordleGameGui.java:142-165 | the colouring loop builds the all-green row on a win and the positional row otherwise, and appends it to the board |
| WordleGame.Game.ProcessGuess | WordleGameGui.java:116-140 | the handler moves the game's fields exactly as `Step` does, returns `Step`'s response, and keeps the invariant |
| WordleGame.Game.RecordGuess | WordleGameGui.java:124-137 | recording an accepted guess moves the fields and answers as the accepted-guess transition says |
| WordleGame.Start | WordleGameGui.java:34-41 | no game starts on an empty list; otherwise the secret is chosen through `ChooseSecret` and a fresh game starts on the loaded word at the drawn index |

## Left out

- The Swing and AWT interface is left out: window, panels, labels, the attempt label text, clearing the text field, listeners, dialogs and repainting. The button and the Enter key both call the handler, which is `Game.ProcessGuess`.
- Reading the word file is left out. `LoadWords` takes the file's lines as a sequence. A failed read shows an error dialog and leaves the list as read so far; that handler is not modelled.
- `java.util.Random` is replaced by the index `k`, which callers must keep below the list's length.
- `System.exit(0)` after a win or a loss is modelled as the terminal statuses `Won` and `Lost`.
- Upper-casing and the `[A-Z]*` check are modelled over ASCII only. Java's `toUpperCase` also maps some non-ASCII letters, for example the dotless `ı` to `I` and the long `ſ` to `S`, so such text could pass Java's check. The model refuses it. The model also assumes a locale whose case mapping is plain ASCII: under a Turkish or Azeri locale Java maps `i` to `İ`, so it refuses a guess such as `slide` that the model accepts, and a listed word holding `i` could never be guessed.
- WordleGame.Game.constructor: the model requires a secret of at least five characters and so excludes a shorter one. Java accepts a shorter word from the file. Its first accepted guess is recorded and costs an attempt, then `displayHint` throws on the event thread, which survives the exception. The game goes on: every later accepted guess is recorded and costs an attempt, no row is ever shown, and the guess that uses the last attempt still reaches the loss dialog and the exit.
- WordleGame.Start: for the same reason, it requires the drawn word to be at least five characters long. Other loaded words may have any length, including the empty word that a blank piece gives.
- Strings are modelled as sequences of Unicode characters, not as Java's UTF-16 code units. A listed word holding a character beyond U+FFFF therefore has a different length and different positions than in Java: `length()` and `charAt(i)` count the two surrogate halves separately, so the lengths `Start` and `Feedback` see and the letters they compare can differ from Java's. Guesses are unaffected, since they must be `A`-`Z`.
