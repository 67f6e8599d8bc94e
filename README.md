# Drawing & Guessing Game: the round controller, hint and countdown in Dafny

The game is a single React page. One player draws a secret word on a canvas,
and the other player guesses it. A 60-second countdown runs during each round,
and a hint reveals one letter of the word every ten seconds. A correct guess
gives both players 10 points. This project models the logic behind that page,
all of which sits in `src/App.jsx`:

- `text.dfy` (module `Text`) covers `s.trim().toLowerCase()`, the
  normalization applied both to the drawer's word and to every guess.
  - `Trim` removes exactly the characters ECMAScript counts as WhiteSpace or
    LineTerminator, from both ends.
  - `Lower` maps the ASCII letters A-Z to lower case. `LowerEqualIff` shows
    that two strings lower-case alike exactly when they agree position by
    position up to ASCII case (`SameIgnoringCase`, defined without `Lower`).
  - The lemmas characterize trimming completely (`TrimDecompose`,
    `TrimUnique`). They show that normalization ignores case and surrounding
    white space, that it is idempotent, and that its results are exactly the
    words in normal form (`IsNormal`).
- `hint.dfy` (module `Hint`) covers `getHint(word, elapsedTime)` and the
  drawer's view `chosenWord.split('').join(' ')`. The lemmas give the exact
  shape of the hint:
  - it has 2n-1 characters;
  - letters sit at even indices and spaces at odd ones;
  - the revealed part is the prefix of length min(n, floor(e/10));
  - the hint only gains letters as time passes;
  - from 10·n seconds on, the hint equals the drawer's view.
- `timer.dfy` (module `Countdown`) covers the `Timer` component as a class.
  - `Reset` fills the clock.
  - `Tick` is one firing of the interval. It removes one second, reports the
    elapsed time `duration - timeLeft`, and signals expiry on the tick that
    brings the clock to zero.
  - A ghost tick counter shows that the reported elapsed time equals the
    number of ticks since the last reset, and that expiry comes on tick number
    `duration` exactly.
- `game.dfy` (module `Round`) covers the `App` component's state as the class
  `Game`, with one method per handler: `setRole`, the word field,
  `startGame`, `handleGuess`, `handleTimeUp`, `resetGame`, and the timer's
  callbacks.
  - `Valid()` is the invariant every handler keeps:
    - the stored word is in normal form, and is non-empty during a round;
    - elapsed time plus time left is 60 during a round;
    - elapsed time is 0 between rounds;
    - a won round is a started round;
    - the two scores are equal multiples of 10.
  - Alerts become a returned `Notice`.
  - Buttons and fields that the page shows only in some states become
    preconditions of their handlers. For example, the guess field exists only
    for the guesser, during a round not yet won (`src/App.jsx:252`). That is
    what keeps a round from paying out twice.

Every handler also preserves `OnlyDrawerHasWord`: for any role other than
the drawer, the stored word is empty and no round is running. The reason is
that the role cannot change once chosen, and only the drawer's branch of
`startGame` stores a word. So, in the page as written, the guesser's "Join
Game" button is never enabled: both roles would have to share one page
instance, and the role is a single field. `GuessFieldNeverShown` states the
consequence: the guess field's condition (lines 252-253) never holds, so
`handleGuess` cannot be reached from the page.

When time runs out, `handleTimeUp` calls `resetGame` (src/App.jsx:166-173).
That clears the round but keeps `role`, both scores and `timerResetKey`, so
after a timeout the player stays in the chosen role. `TimeoutScenario` plays
such a round from a new game to its end.

## Model

| member | source | states |
|---|---|---|
| `Text.TrimStartSpec` | src/App.jsx:143 | trimming the front leaves the suffix of the input that starts at its first non-space character; everything before it is white space |
| `Text.TrimEndSpec` | src/App.jsx:143 | trimming the back leaves the prefix of the input that ends at its last non-space character; everything after it is white space |
| `Text.TrimDecompose` | src/App.jsx:143-144 | the input is some white space, then `trim()`'s result, then some white space, and that result neither starts nor ends with white space: only white space at the ends is removed |
| `Text.TrimUnique` | src/App.jsx:143-144 | a non-empty word without white space at its ends, padded with white space, trims back to exactly that word |
| `Text.TrimEmptyIff` | src/App.jsx:143 | `inputWord.trim() !== ''` holds exactly when the input is not all white space (both directions) |
| `Text.TrimIdempotent` | src/App.jsx:143 | trimming a trimmed string changes nothing |
| `Text.TrimPadding` | src/App.jsx:177 | adding white space around a string does not change its trimmed form |
| `Text.LowerEqualIff` | src/App.jsx:144 | two strings lower-case to the same string if and only if they have equal length and agree position by position up to ASCII case |
| `Text.LowerRemovesUpper` | src/App.jsx:144 | lower-casing keeps the length, leaves no upper-case ASCII letter, and keeps each position's letter up to case, which determines the result |
| `Text.TrimLowerCommute` | src/App.jsx:144 | trimming and lower-casing commute, because lower-casing neither creates nor removes white space |
| `Text.NormalizeIsNormal` | src/App.jsx:144 | every `trim().toLowerCase()` result has no white space at its ends and no upper-case letter |
| `Text.NormalFixed` | src/App.jsx:177 | a word in normal form normalizes to itself, so the normal-form words are exactly the possible stored words |
| `Text.NormalizeIdempotent` | src/App.jsx:177 | normalizing the stored word again gives the stored word, so typing it exactly as stored is a match |
| `Text.NormalizeIgnoresCase` | src/App.jsx:177 | two guesses that agree position by position up to ASCII case normalize to the same word |
| `Text.NormalizeIgnoresPadding` | src/App.jsx:177 | two guesses that differ only in surrounding white space normalize to the same word |
| `Text.NormalizeEmptyIff` | src/App.jsx:143-144 | a typed word normalizes to the empty word exactly when it is all white space |
| `Text.NormalizeExamples` | src/App.jsx:177 | `"  CAT "` normalizes to `"cat"` and `"Apple "` to `"apple"` |
| `Hint.SpacedShape` | src/App.jsx:124 | joining n one-character tokens with `' '` gives 2n-1 characters, with token i at index 2i and a space at every odd index |
| `Hint.SpacedInjective` | src/App.jsx:124 | the joined string determines the tokens it was built from |
| `Hint.HintLength` | src/App.jsx:119-124 | the hint is empty exactly when the word is empty; otherwise it has 2n-1 characters |
| `Hint.HintAt` | src/App.jsx:120-123 | index 2i shows letter i when i < floor(elapsed/10) and `'_'` otherwise; odd indices show `' '` |
| `Hint.HintRevealsPrefix` | src/App.jsx:120-124 | the hint is the spaced form of the first min(n, floor(elapsed/10)) letters followed by placeholders |
| `Hint.HintNothingShownEarly` | src/App.jsx:120-123 | before ten seconds have passed every position is a placeholder |
| `Hint.HintFullyRevealed` | src/App.jsx:118-125 | from 10·n seconds on, the guesser's hint equals the drawer's `split('').join(' ')` view (line 245) |
| `Hint.HintMonotone` | src/App.jsx:120-123 | a letter shown at an earlier time is still shown, at the same index, at any later time |
| `Hint.HintExample` | src/App.jsx:118-125 | 25 seconds into a round on "apple", the hint is `a p _ _ _` |
| `Countdown.Timer.constructor` | src/App.jsx:5-6 | a newly mounted timer starts with the full duration left |
| `Countdown.Timer.Reset` | src/App.jsx:8-10 | a new reset key fills the clock to the full duration |
| `Countdown.Timer.Tick` | src/App.jsx:17-26 | a tick removes one second and reports elapsed = duration − time left, which equals the number of ticks since the reset; it signals expiry exactly when the clock reaches 0, which is tick number `duration` |
| `Round.Game.constructor` | src/App.jsx:129-137 | initial state: no role, empty words, no round, zero points, zero elapsed time, reset key 0, and a newly created timer that the game owns |
| `Round.Game.SetRole` | src/App.jsx:191-200 | choosing a role while none is chosen sets it and changes nothing else |
| `Round.Game.EnterWord` | src/App.jsx:203-212 | the drawer's field between rounds sets `inputWord` only |
| `Round.Game.StartGame` | src/App.jsx:142-155 | a drawer with a word that is not all white space stores its normal form and starts a round (won flag cleared, elapsed 0, reset key +1, clock full). A guesser with a stored word starts the same round and keeps the word. With no role, a blank word, or a guesser without a word, nothing changes. Role, input and points are never touched. |
| `Round.Game.ResetGame` | src/App.jsx:166-173 | clears the round, the stored word, the input and the elapsed time; keeps role, points and reset key |
| `Round.Game.HandleTimeUp` | src/App.jsx:158-163 | after a correct guess nothing changes; otherwise the word is announced and the round is reset as by `resetGame` |
| `Round.Game.HandleGuess` | src/App.jsx:176-185 | a guess whose normal form equals the stored word wins the round and adds exactly 10 to both scores; any other guess changes nothing |
| `Round.Game.Tick` | src/App.jsx:237-242 | one second of a round: elapsed time rises by one while time is left. At zero, a won round stays on screen with elapsed 60; an unwon round is announced and reset. Points never change. |
| `Round.GuessFieldNeverShown` | src/App.jsx:252-253 | wherever only the drawer has a word, the guess field's condition (a running round, the guesser's role, not yet won) is false |
| `Round.TimeoutScenario` | src/App.jsx:158-173 | a drawer who types " Sun ", starts and lets 60 ticks pass gets the notice `TimesUp("sun")`; the round ends and the role `Drawer` and the zero scores remain |

## Left out

- The `Canvas` component (2D drawing, pointer coordinates, `getBoundingClientRect`) is raster I/O with no game rule beyond ignoring input when inactive.
- `GuessInput`'s text buffer only hands its contents to `handleGuess` and then clears itself. `HandleGuess` takes the submitted text directly.
- `alert` calls are browser side effects. They are returned as a `Notice` value instead.
- `setInterval`/`clearInterval` scheduling and React's effect and re-render semantics. A tick is a synchronous method call, and each handler's state updates take effect together.
- Round.Game.Tick: does not model the second `onTimeUp` call. The Timer's effect (lines 12-15) calls it again when it re-runs with `timeLeft` at 0. The model also does not capture handlers that see state from an earlier render (stale closures).
- Countdown.Timer.Tick: requires time left, because the interval is installed only while `timeLeft > 0` (lines 13-17). The immediate `onTimeUp` for a timer mounted with no time left is not modelled.
- The Timer's `duration` prop is a constant of the object. The page always passes 60, so a change of duration triggering a reset is not modelled.
- Text.Lower: maps only the ASCII letters A-Z, not the full Unicode lower-case mapping of `toLowerCase`.
- Strings are sequences of Unicode scalar values, not UTF-16 code units. So `split('')` on characters outside the Basic Multilingual Plane is not modelled.
- JSX rendering and CSS are presentation only. The conditions under which the page shows a button or field appear as preconditions of the corresponding handler.
