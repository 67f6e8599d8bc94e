/**
 * The round controller: the state the game's top-level component keeps and
 * the handlers that change it. Each handler's updates are applied together,
 * in the order written. Buttons and inputs that the page only shows in some
 * states become preconditions of the handlers they trigger.
 */
module Round {
  import opened Text
  import Countdown

  datatype Role = NoRole | Drawer | Guesser

  /** The browser alert a handler raises, if any. */
  datatype Notice = Silent | CorrectGuess | IncorrectGuess | TimesUp(word: string)

  /** The controller's state, viewed as the stages of a round. */
  datatype Phase = ChoosingRole | AwaitingWord | Active | Resolved

  /** Seconds per round. */
  const GameDuration: int := 60
  /** Points each player gains for a correct guess. */
  const Award: nat := 10

  class Game {
    var role: Role
    var chosenWord: string
    var inputWord: string
    var gameStarted: bool
    var guessedCorrectly: bool
    var drawerPoints: nat
    var guesserPoints: nat
    var elapsedTime: nat
    var timerResetKey: nat
    /** The round's countdown; it reports elapsed time and expiry back here. */
    const timer: Countdown.Timer

    /** What holds between handlers: the stored word is in normal form and
        non-empty during a round, the elapsed time and the clock add up to a
        round, and the two scores move together in steps of the award. */
    ghost predicate Valid()
      reads this, timer
    {
      && timer.Valid() && timer.duration == GameDuration
      && IsNormal(chosenWord)
      && (gameStarted ==> chosenWord != [] && role != NoRole)
      && (gameStarted ==> elapsedTime + timer.timeLeft == GameDuration)
      && (!gameStarted ==> elapsedTime == 0)
      && (guessedCorrectly ==> gameStarted)
      && drawerPoints == guesserPoints && drawerPoints % Award == 0
    }

    /** Only the drawer ever sets a word: the role cannot change once chosen
        and only the drawer's start stores a word, so a guesser's word stays
        empty and the guesser's start never succeeds. */
    ghost predicate OnlyDrawerHasWord()
      reads this
    {
      role != Drawer ==> chosenWord == [] && !gameStarted
    }

    ghost function Stage(): Phase
      reads this
    {
      if role == NoRole then ChoosingRole
      else if !gameStarted then AwaitingWord
      else if guessedCorrectly then Resolved
      else Active
    }

    constructor ()
      ensures Valid() && OnlyDrawerHasWord() && Stage() == ChoosingRole
      ensures fresh(timer)
      ensures role == NoRole && chosenWord == [] && inputWord == []
      ensures !gameStarted && !guessedCorrectly
      ensures drawerPoints == 0 && guesserPoints == 0
      ensures elapsedTime == 0 && timerResetKey == 0
    {
      role := NoRole;
      chosenWord := [];
      inputWord := [];
      gameStarted := false;
      guessedCorrectly := false;
      drawerPoints := 0;
      guesserPoints := 0;
      elapsedTime := 0;
      timerResetKey := 0;
      timer := new Countdown.Timer(GameDuration);
    }

    /** The role buttons, shown only while no role is chosen. */
    method SetRole(r: Role)
      requires Valid() && role == NoRole && r != NoRole
      modifies this
      ensures Valid() && (old(OnlyDrawerHasWord()) ==> OnlyDrawerHasWord())
      ensures role == r && Stage() == AwaitingWord
      ensures chosenWord == old(chosenWord) && inputWord == old(inputWord)
      ensures gameStarted == old(gameStarted) && guessedCorrectly == old(guessedCorrectly)
      ensures drawerPoints == old(drawerPoints) && guesserPoints == old(guesserPoints)
      ensures elapsedTime == old(elapsedTime) && timerResetKey == old(timerResetKey)
    {
      role := r;
    }

    /** The drawer's word field, shown only to the drawer between rounds. */
    method EnterWord(s: string)
      requires Valid() && role == Drawer && !gameStarted
      modifies this
      ensures Valid() && (old(OnlyDrawerHasWord()) ==> OnlyDrawerHasWord())
      ensures inputWord == s
      ensures role == old(role) && chosenWord == old(chosenWord)
      ensures gameStarted == old(gameStarted) && guessedCorrectly == old(guessedCorrectly)
      ensures drawerPoints == old(drawerPoints) && guesserPoints == old(guesserPoints)
      ensures elapsedTime == old(elapsedTime) && timerResetKey == old(timerResetKey)
    {
      inputWord := s;
    }

    /** `startGame`: the drawer starts with the normalized typed word, provided
        it is not all white space; the guesser joins, provided a word is set.
        Otherwise nothing changes. A start fills the timer again through a
        new reset key. */
    method StartGame()
      requires Valid()
      modifies this, timer
      ensures Valid() && (old(OnlyDrawerHasWord()) ==> OnlyDrawerHasWord())
      ensures role == old(role) && inputWord == old(inputWord)
      ensures drawerPoints == old(drawerPoints) && guesserPoints == old(guesserPoints)
      ensures old(role) == Drawer && !AllSpace(old(inputWord)) ==>
                && chosenWord == Normalize(old(inputWord))
                && gameStarted && !guessedCorrectly && elapsedTime == 0
                && timerResetKey == old(timerResetKey) + 1
                && timer.timeLeft == GameDuration
                && Stage() == Active
      ensures old(role) == Guesser && old(chosenWord) != [] ==>
                && chosenWord == old(chosenWord)
                && gameStarted && !guessedCorrectly && elapsedTime == 0
                && timerResetKey == old(timerResetKey) + 1
                && timer.timeLeft == GameDuration
                && Stage() == Active
      ensures old(role) == NoRole
              || (old(role) == Drawer && AllSpace(old(inputWord)))
              || (old(role) == Guesser && old(chosenWord) == []) ==>
                unchanged(this) && unchanged(timer)
    {
      TrimEmptyIff(inputWord);
      if role == Drawer && Trim(inputWord) != [] {
        NormalizeIsNormal(inputWord);
        chosenWord := Lower(Trim(inputWord));
        gameStarted := true;
        guessedCorrectly := false;
        elapsedTime := 0;
        timerResetKey := timerResetKey + 1;
        timer.Reset();
      } else if role == Guesser && chosenWord != [] {
        gameStarted := true;
        guessedCorrectly := false;
        elapsedTime := 0;
        timerResetKey := timerResetKey + 1;
        timer.Reset();
      }
    }

    /** `resetGame` (the "Play Again" button, and the end of a round whose
        time ran out): clears the round but keeps the role, the scores and
        the reset key. */
    method ResetGame()
      requires Valid()
      modifies this
      ensures Valid() && (old(OnlyDrawerHasWord()) ==> OnlyDrawerHasWord())
      ensures !gameStarted && chosenWord == [] && inputWord == []
      ensures elapsedTime == 0 && !guessedCorrectly
      ensures role == old(role) && timerResetKey == old(timerResetKey)
      ensures drawerPoints == old(drawerPoints) && guesserPoints == old(guesserPoints)
      ensures Stage() == if role == NoRole then ChoosingRole else AwaitingWord
    {
      gameStarted := false;
      chosenWord := [];
      inputWord := [];
      elapsedTime := 0;
      guessedCorrectly := false;
    }

    /** `handleTimeUp`: if the word was not guessed, announce it and reset the
        round; after a correct guess, do nothing. Called only while the
        timer is on screen, that is during a round. */
    method HandleTimeUp() returns (notice: Notice)
      requires Valid() && gameStarted
      modifies this
      ensures Valid() && (old(OnlyDrawerHasWord()) ==> OnlyDrawerHasWord())
      ensures old(guessedCorrectly) ==> notice == Silent && unchanged(this)
      ensures !old(guessedCorrectly) ==>
                && notice == TimesUp(old(chosenWord))
                && !gameStarted && chosenWord == [] && inputWord == []
                && elapsedTime == 0 && !guessedCorrectly
                && role == old(role) && timerResetKey == old(timerResetKey)
                && drawerPoints == old(drawerPoints) && guesserPoints == old(guesserPoints)
                && Stage() == AwaitingWord
    {
      if !guessedCorrectly {
        notice := TimesUp(chosenWord);
        ResetGame();
      } else {
        notice := Silent;
      }
    }

    /** `handleGuess`: the guess is normalized and compared with the stored
        word. A match marks the round won and gives both players the award;
        a mismatch changes nothing. The guess field is shown only to the
        guesser during a round that is not yet won. */
    method HandleGuess(guess: string) returns (notice: Notice)
      requires Valid() && gameStarted && role == Guesser && !guessedCorrectly
      modifies this
      ensures Valid() && (old(OnlyDrawerHasWord()) ==> OnlyDrawerHasWord())
      ensures notice == if Normalize(guess) == old(chosenWord) then CorrectGuess else IncorrectGuess
      ensures Normalize(guess) == old(chosenWord) ==>
                && guessedCorrectly && Stage() == Resolved
                && drawerPoints == old(drawerPoints) + Award
                && guesserPoints == old(guesserPoints) + Award
                && role == old(role) && chosenWord == old(chosenWord) && inputWord == old(inputWord)
                && gameStarted == old(gameStarted) && elapsedTime == old(elapsedTime)
                && timerResetKey == old(timerResetKey)
      ensures Normalize(guess) != old(chosenWord) ==> unchanged(this)
    {
      var normalized := Normalize(guess);
      if normalized == chosenWord {
        guessedCorrectly := true;
        notice := CorrectGuess;
        drawerPoints := drawerPoints + Award;
        guesserPoints := guesserPoints + Award;
      } else {
        notice := IncorrectGuess;
      }
    }

    /** One second of a round: the timer ticks, its elapsed time is stored,
        and on expiry the time-up handler runs. */
    method Tick() returns (notice: Notice)
      requires Valid() && gameStarted && timer.timeLeft > 0
      modifies this, timer
      ensures Valid() && (old(OnlyDrawerHasWord()) ==> OnlyDrawerHasWord())
      ensures timer.timeLeft == old(timer.timeLeft) - 1
      ensures role == old(role) && timerResetKey == old(timerResetKey)
      ensures drawerPoints == old(drawerPoints) && guesserPoints == old(guesserPoints)
      ensures timer.timeLeft > 0 ==>
                && notice == Silent && elapsedTime == old(elapsedTime) + 1
                && chosenWord == old(chosenWord) && inputWord == old(inputWord)
                && gameStarted && guessedCorrectly == old(guessedCorrectly)
      ensures timer.timeLeft == 0 && old(guessedCorrectly) ==>
                && notice == Silent && elapsedTime == GameDuration
                && chosenWord == old(chosenWord) && inputWord == old(inputWord)
                && gameStarted && guessedCorrectly
      ensures timer.timeLeft == 0 && !old(guessedCorrectly) ==>
                && notice == TimesUp(old(chosenWord))
                && !gameStarted && chosenWord == [] && inputWord == []
                && elapsedTime == 0 && !guessedCorrectly
    {
      var elapsed, expired := timer.Tick();
      elapsedTime := elapsed;
      notice := Silent;
      if expired {
        notice := HandleTimeUp();
      }
    }
  }

  /** On the page as written nobody can submit a guess: where only the drawer
      has a word, the guess field's condition (a round running for the
      guesser, not yet won) never holds. */
  lemma GuessFieldNeverShown(g: Game)
    requires g.OnlyDrawerHasWord()
    ensures !(g.gameStarted && g.role == Guesser && !g.guessedCorrectly)
  {
  }

  /** A round nobody wins: the drawer types " Sun ", starts, and the clock
      runs out. The word is announced in its stored form, the round ends,
      and the role and the scores survive. */
  method TimeoutScenario() returns (notice: Notice, g: Game)
    ensures notice == TimesUp("sun")
    ensures g.role == Drawer && !g.gameStarted && g.chosenWord == []
    ensures g.drawerPoints == 0 && g.guesserPoints == 0
  {
    g := new Game();
    g.SetRole(Drawer);
    g.EnterWord(" Sun ");
    assert !IsSpace(" Sun "[1]);
    assert Normalize(" Sun ") == "sun" by {
      assert " Sun " == " " + "Sun" + " ";
      assert AllSpace(" ") && Lower("Sun") == "sun";
      TrimUnique(" ", "Sun", " ");
    }
    g.StartGame();
    notice := Silent;
    var seconds := 0;
    while seconds < GameDuration - 1
      invariant 0 <= seconds <= GameDuration - 1
      invariant fresh(g) && fresh(g.timer) && g.Valid()
      invariant g.gameStarted && !g.guessedCorrectly && g.role == Drawer
      invariant g.chosenWord == "sun" && g.timer.timeLeft == GameDuration - seconds
      invariant g.drawerPoints == 0 && g.guesserPoints == 0
    {
      notice := g.Tick();
      seconds := seconds + 1;
    }
    notice := g.Tick();
  }
}
