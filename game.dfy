/**
 * The game session (pages/index.tsx, GameState and the handlers that replace
 * it). `State` is one value of GameState; the functions below are the
 * transitions the handlers apply, and class `Game` holds the session that
 * the handlers overwrite. The random pick of the mystery is an index `i`.
 */
module Game {
  import opened Wrappers
  import opened Celebs
  import opened Evaluator
  import Search
  import Share

  const MaxGuesses: int := 8

  datatype State = State(
    mysteryCeleb: Option<Celeb>,
    guesses: seq<Celeb>,
    gameOver: bool,
    won: bool,
    gaveUp: bool,
    loading: bool,
    maxGuesses: int)

  /** The last guess of a non-empty history. */
  function Last(guesses: seq<Celeb>): Celeb
    requires |guesses| > 0
  {
    guesses[|guesses| - 1]
  }

  /**
   * What every reachable session satisfies: while loading there is no mystery
   * and nothing has happened; afterwards the mystery is a roster record. The
   * guesses never repeat a name and never exceed the budget; `won` records
   * that the last guess named the mystery; the game is over exactly when it
   * was won, given up, or the budget is used up; and a give-up needs a guess.
   */
  ghost predicate Inv(s: State) {
    s.maxGuesses == MaxGuesses &&
    (s.loading <==> s.mysteryCeleb.None?) &&
    (s.loading ==> s.guesses == [] && !s.gameOver && !s.won && !s.gaveUp) &&
    (s.mysteryCeleb.Some? ==> s.mysteryCeleb.value in Roster) &&
    |s.guesses| <= s.maxGuesses &&
    NamesDistinct(s.guesses) &&
    (s.won <==> s.mysteryCeleb.Some? && Guessed(s.guesses, s.mysteryCeleb.value.name)) &&
    (s.won ==> Last(s.guesses).name == s.mysteryCeleb.value.name) &&
    (s.gameOver <==> s.won || s.gaveUp || |s.guesses| == s.maxGuesses) &&
    !(s.won && s.gaveUp) &&
    (s.gaveUp ==> |s.guesses| > 0)
  }

  /** The session before the page has loaded. */
  function Initial(): (s: State)
    ensures Inv(s)
  {
    State(None, [], false, false, false, true, MaxGuesses)
  }

  /** The page has loaded: the mystery is roster record `i`. */
  function Mounted(s: State, i: nat): (r: State)
    requires i < |Roster|
    ensures r.mysteryCeleb == Some(Roster[i]) && !r.loading
    ensures r.guesses == s.guesses && r.gameOver == s.gameOver && r.won == s.won
    ensures r.gaveUp == s.gaveUp && r.maxGuesses == s.maxGuesses
  {
    s.(mysteryCeleb := Some(Roster[i]), loading := false)
  }

  /**
   * Guessing `c`. A name already guessed leaves the whole session as it was.
   * A new name is appended at the end, earlier guesses staying as they were;
   * the game is won exactly when it names the mystery, and over exactly when
   * won or out of guesses; nothing else changes.
   */
  function Selected(s: State, c: Celeb): (r: State)
    ensures Guessed(s.guesses, c.name) ==> r == s
    ensures !Guessed(s.guesses, c.name) ==>
              r.guesses == s.guesses + [c] &&
              |r.guesses| == |s.guesses| + 1 &&
              r.guesses[..|s.guesses|] == s.guesses &&
              (r.won <==> s.mysteryCeleb.Some? && c.name == s.mysteryCeleb.value.name) &&
              (r.gameOver <==> r.won || |r.guesses| >= s.maxGuesses) &&
              r.mysteryCeleb == s.mysteryCeleb && r.gaveUp == s.gaveUp &&
              r.maxGuesses == s.maxGuesses && r.loading == s.loading
  {
    if Guessed(s.guesses, c.name) then s
    else
      var isCorrect := s.mysteryCeleb.Some? && c.name == s.mysteryCeleb.value.name;
      var newGuesses := s.guesses + [c];
      assert newGuesses[..|s.guesses|] == s.guesses;
      s.(guesses := newGuesses,
         gameOver := isCorrect || |newGuesses| >= s.maxGuesses,
         won := isCorrect)
  }

  /** Giving up ends the game and marks it given up; nothing else changes. */
  function GaveUp(s: State): (r: State)
    ensures r.gameOver && r.gaveUp
    ensures r.guesses == s.guesses && r.won == s.won && r.mysteryCeleb == s.mysteryCeleb
    ensures r.maxGuesses == s.maxGuesses && r.loading == s.loading
  {
    s.(gameOver := true, gaveUp := true)
  }

  /** A new game: no guesses, every flag down, eight guesses, and a roster record as the mystery. */
  function Fresh(i: nat): (r: State)
    requires i < |Roster|
    ensures r.guesses == [] && !r.gameOver && !r.won && !r.gaveUp && !r.loading
    ensures r.maxGuesses == 8 && r.mysteryCeleb == Some(Roster[i])
  {
    State(Some(Roster[i]), [], false, false, false, false, MaxGuesses)
  }

  // ---- the invariant is kept ----

  lemma MountedKeepsInv(s: State, i: nat)
    requires Inv(s) && s.loading && i < |Roster|
    ensures Inv(Mounted(s, i))
  {
  }

  lemma SelectedKeepsInv(s: State, c: Celeb)
    requires Inv(s) && !s.loading && !s.gameOver
    ensures Inv(Selected(s, c))
  {
    if !Guessed(s.guesses, c.name) {
      var r := Selected(s, c);
      forall i, j | 0 <= i < j < |r.guesses|
        ensures r.guesses[i].name != r.guesses[j].name
      {
        if j == |s.guesses| {
          assert r.guesses[i] == s.guesses[i];
        }
      }
      if r.won {
        assert r.guesses[|s.guesses|] == c;
      }
      if Guessed(r.guesses, s.mysteryCeleb.value.name) {
        var k :| 0 <= k < |r.guesses| && r.guesses[k].name == s.mysteryCeleb.value.name;
        assert k == |s.guesses|;
      }
    }
  }

  lemma GaveUpKeepsInv(s: State)
    requires Inv(s) && !s.loading && !s.gameOver && |s.guesses| > 0
    ensures Inv(GaveUp(s))
  {
  }

  lemma FreshSatisfiesInv(i: nat)
    requires i < |Roster|
    ensures Inv(Fresh(i))
  {
  }

  // ---- consequences for play ----

  /** A session that ended neither won nor given up has used all eight guesses. */
  lemma LostMeansOutOfGuesses(s: State)
    requires Inv(s) && s.gameOver && !s.won && !s.gaveUp
    ensures |s.guesses| == 8
  {
  }

  /** A record offered by the search is always appended when chosen. */
  lemma OfferedGuessIsAppended(roster: seq<Celeb>, s: State, term: string, c: Celeb)
    requires c in Search.Search(roster, s.guesses, term)
    ensures Selected(s, c).guesses == s.guesses + [c]
  {
    assert Search.IsCandidate(c, s.guesses, term);
  }

  /** In a won game chosen from the roster, the last share row is all green. */
  lemma WonLastRowAllGreen(s: State)
    requires Inv(s) && s.won && Last(s.guesses) in Roster
    ensures Share.Row(s.mysteryCeleb, Last(s.guesses)) == [Share.Green, Share.Green, Share.Green, Share.Green, Share.Green, '\n']
  {
    SameNameSameCeleb(Last(s.guesses), s.mysteryCeleb.value);
    Share.SameCelebRowAllGreen(s.mysteryCeleb.value);
  }

  /**
   * A play: the mystery is Leonardo DiCaprio; Tom Hanks is older (down arrow
   * on age) and the game goes on; then guessing Leonardo DiCaprio wins.
   */
  lemma ExamplePlay()
    ensures var s0 := Fresh(1);
            var s1 := Selected(s0, Roster[3]);
            var s2 := Selected(s1, Roster[1]);
            DirectionalHint(s0.mysteryCeleb, Roster[3], Age) == Lower &&
            !s1.gameOver && !s1.won && |s1.guesses| == 1 &&
            s2.won && s2.gameOver && s2.guesses == [Roster[3], Roster[1]]
  {
    var s0 := Fresh(1);
    assert !Guessed(s0.guesses, Roster[3].name);
    var s1 := Selected(s0, Roster[3]);
    assert Roster[3].name != Roster[1].name by { RosterNamesDistinct(); }
    assert !Guessed(s1.guesses, Roster[1].name);
  }

  /**
   * The body of the share button's `forEach`: one guess's row of glyphs,
   * computed as the handler does. Share.Row is the specification it meets,
   * written the same way; what a row means is stated in Share.Row's contract.
   */
  method RowText(mystery: Option<Celeb>, guess: Celeb) returns (row: string)
    ensures row == Share.Row(mystery, guess)
  {
    var professionMatch := Share.Glyph(IsMatch(mystery, guess, Profession));
    var ageMatch := Share.Glyph(IsMatch(mystery, guess, Age));
    var countryMatch := Share.Glyph(IsMatch(mystery, guess, Country));
    var oscarsMatch := Share.Glyph(IsMatch(mystery, guess, Oscars));
    var grammysMatch := Share.Glyph(IsMatch(mystery, guess, Grammys));
    row := [professionMatch, ageMatch, countryMatch, oscarsMatch, grammysMatch, '\n'];
  }

  /** The share button's `forEach`: append one row per guess, in guessing order, to `shareText`. */
  method AppendRows(shareText: string, mystery: Option<Celeb>, guesses: seq<Celeb>) returns (text: string)
    ensures text == shareText + Share.Grid(mystery, guesses)
  {
    text := shareText;
    var i := 0;
    while i < |guesses|
      invariant 0 <= i <= |guesses|
      invariant text == shareText + Share.Rows(mystery, guesses, i)
    {
      var row := RowText(mystery, guesses[i]);
      text := text + row;
      i := i + 1;
    }
  }

  /** The session the page holds; each handler replaces some of its fields. */
  class Game {
    var mysteryCeleb: Option<Celeb>
    var guesses: seq<Celeb>
    var gameOver: bool
    var won: bool
    var gaveUp: bool
    var loading: bool
    var maxGuesses: int

    ghost function Snapshot(): State
      reads this
    {
      State(mysteryCeleb, guesses, gameOver, won, gaveUp, loading, maxGuesses)
    }

    ghost predicate Valid()
      reads this
    {
      Inv(Snapshot())
    }

    /** The state the page starts in, before it has loaded. */
    constructor ()
      ensures Valid() && Snapshot() == Initial()
    {
      mysteryCeleb := None;
      guesses := [];
      gameOver := false;
      won := false;
      gaveUp := false;
      loading := true;
      maxGuesses := MaxGuesses;
    }

    /** The mount effect: pick the mystery and stop loading. */
    method Mount(i: nat)
      requires Valid() && loading && i < |Roster|
      modifies this
      ensures Valid() && Snapshot() == Mounted(old(Snapshot()), i)
    {
      MountedKeepsInv(Snapshot(), i);
      mysteryCeleb := Some(Roster[i]);
      loading := false;
    }

    /** Submit a guess; reachable only from the search box, shown while the game runs. */
    method SelectCeleb(c: Celeb)
      requires Valid() && !loading && !gameOver
      modifies this
      ensures Valid() && Snapshot() == Selected(old(Snapshot()), c)
    {
      SelectedKeepsInv(Snapshot(), c);
      if Guessed(guesses, c.name) {
        return;
      }
      var isCorrect := mysteryCeleb.Some? && c.name == mysteryCeleb.value.name;
      var newGuesses := guesses + [c];
      guesses := newGuesses;
      gameOver := isCorrect || |newGuesses| >= maxGuesses;
      won := isCorrect;
    }

    /** Give up; the button is shown while the game runs and enabled after a guess. */
    method HandleGiveUp()
      requires Valid() && !loading && !gameOver && |guesses| > 0
      modifies this
      ensures Valid() && Snapshot() == GaveUp(old(Snapshot()))
    {
      GaveUpKeepsInv(Snapshot());
      gameOver := true;
      gaveUp := true;
    }

    /** Replace the whole session with a new game whose mystery is roster record `i`. */
    method HandleNewGame(i: nat)
      requires i < |Roster|
      modifies this
      ensures Valid() && Snapshot() == Fresh(i)
    {
      FreshSatisfiesInv(i);
      mysteryCeleb := Some(Roster[i]);
      guesses := [];
      gameOver := false;
      won := false;
      gaveUp := false;
      loading := false;
      maxGuesses := MaxGuesses;
    }

    /** Build the share text: preamble, the rows, the footer; None when there is no mystery. */
    method ShareResults() returns (text: Option<string>)
      ensures text == Share.Encode(mysteryCeleb, guesses, won, maxGuesses)
    {
      if mysteryCeleb.None? {
        return None;
      }
      var shareText := Share.Header(mysteryCeleb.value.name);
      shareText := shareText + Share.Outcome(won, |guesses|, maxGuesses);
      shareText := shareText + "\n\n";
      shareText := AppendRows(shareText, mysteryCeleb, guesses);
      shareText := shareText + Share.Footer;
      return Some(shareText);
    }
  }
}
