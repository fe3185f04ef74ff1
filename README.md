# Celeb Wordle game engine, modelled in Dafny

Celeb Wordle is a guessing game. A mystery celebrity is drawn from a fixed roster of ten
records. The player picks candidates from a search box, and each guess is compared with the
mystery property by property. Profession, age, country, Oscars and Grammys are shown as
matches. Age, Oscars and Grammys also get an up or down arrow. The game ends when the
mystery is guessed, after eight guesses, or when the player gives up. A finished game can be
shared as a short text with one row of green or white squares per guess.

All of the engine is in `pages/index.tsx`. This model covers it in six modules:

- `Celebs` (celebs.dfy): the celebrity record, the roster constant, and the facts that the
  roster's names are distinct and that a name identifies a record.
- `Evaluator` (evaluator.dfy): `isMatch` as `IsMatch` over a `Property` enumeration, and
  `getDirectionalHint` as `DirectionalHint`, which returns `Higher` (↑), `Lower` (↓) or
  `NoHint` instead of a rendered span.
- `Search` (search.dfy): the filter that `handleSearchChange` applies, which keeps roster
  records whose lower-cased name contains the lower-cased term and that were not guessed.
  `Includes` is JavaScript's `String.prototype.includes`. It is proved equal to "occurs at
  some position".
- `Share` (share.dfy): the text that `shareResults` builds, as specification functions. There
  are lemmas on where each row sits, on the number of lines, and on the decimal numbers
  printed in the outcome line, which read back to the values written.
- `Game` (game.dfy): `GameState` as the datatype `State`, and each handler as a transition
  function (`Mounted`, `Selected`, `GaveUp`, `Fresh`). `Inv` is the invariant every reachable
  session keeps. Class `Game` holds the session fields. Its methods overwrite those fields and
  are proved equal to the transition functions. Its `ShareResults` method builds the share
  text by appending to it. The per-guess loop is `AppendRows` and the loop body is `RowText`.
  `ShareResults` is proved equal to `Share.Encode`.
- `Wrappers` (wrappers.dfy): `Option`, used for the mystery, which is `null` until the page has
  loaded.

The random index `Math.floor(Math.random() * dummyCelebs.length)` becomes a parameter
`i` with `i < |Roster|`. Two guards exist only in the page's markup, and they become
preconditions:

- guesses can be submitted only while the game is loaded and not over, because the search
  box is rendered only then;
- giving up also needs at least one guess, because the button is disabled before that.

## Model

| member | source | states |
|---|---|---|
| `Celebs.RosterNamesDistinct` | pages/index.tsx:5-16 | the roster has ten records and no two share a name |
| `Celebs.SameNameSameCeleb` | pages/index.tsx:5-16 | two roster records with the same name are the same record, so the name is the identity key |
| `Evaluator.IsMatch` | pages/index.tsx:125-128 | no property matches while there is no mystery, and every property matches when the guess is the mystery |
| `Evaluator.MatchEverywhereIffSame` | pages/index.tsx:125-128 | a guess matches the mystery on every property if and only if it equals the mystery |
| `Evaluator.DirectionalHint` | pages/index.tsx:131-143 | no hint without a mystery or for equal values; `Higher` exactly when the guess's value is below the mystery's; `Lower` exactly when it is above |
| `Evaluator.HintAbsentIffMatch` | pages/index.tsx:125-143 | on a numeric property the arrow is absent exactly when `isMatch` holds |
| `Evaluator.HintSwaps` | pages/index.tsx:138-142 | swapping guess and mystery turns ↑ into ↓ and back |
| `Search.Lower` | pages/index.tsx:69 | lower-casing keeps the length, maps each character, and leaves no ASCII capital |
| `Search.LowerIdempotent` | pages/index.tsx:69 | lower-casing a lower-cased string changes nothing |
| `Search.Includes` | pages/index.tsx:69 | the empty term is included in every name, and a term longer than the name never is |
| `Search.IncludesIffOccurs` | pages/index.tsx:69 | `includes` holds if and only if the term occurs at some position of the name |
| `Search.IsCandidate` | pages/index.tsx:68-71 | a record passes the filter exactly when the lower-cased term occurs at some position of its lower-cased name and no guess has its name |
| `Search.Filter` | pages/index.tsx:68-71 | the result holds exactly the records of the input that pass the test, each as many times as in the input, as a subsequence in input order |
| `Search.Search` | pages/index.tsx:63-76 | an empty term gives the empty list; a non-empty term gives exactly the roster records that pass the test, each as many times as in the roster, in roster order |
| `Search.FullNameIsOffered` | pages/index.tsx:68-71 | typing an unguessed roster name in full, in any ASCII case, offers that record |
| `Search.GuessedNeverOffered` | pages/index.tsx:70 | no guessed name ever appears among the search results |
| `Share.NatToString` | pages/index.tsx:150 | the guess count is written as at least one decimal digit, without a leading zero |
| `Share.NatToStringRoundTrip` | pages/index.tsx:150 | reading the written digits back gives the number |
| `Share.Row` | pages/index.tsx:155-161 | a row is five glyphs and a line break; glyph `j` is 🟩 exactly when `isMatch` holds for property `j` of profession, age, country, oscars, grammys |
| `Share.Rows` | pages/index.tsx:154-162 | the rows of the first `n` guesses are six characters per guess |
| `Share.RowsRowAt` | pages/index.tsx:154-162 | row `k` of the rows of the first `n` guesses is the row of guess `k` |
| `Share.GridRowAt` | pages/index.tsx:154-162 | row `k` of the grid is the row of guess `k`, so the rows are in guessing order |
| `Share.RowHasOneLineBreak` | pages/index.tsx:161 | each row holds exactly one line break |
| `Share.RowsLineCount` | pages/index.tsx:154-162 | the rows of the first `n` guesses hold exactly `n` line breaks |
| `Share.GridLineCount` | pages/index.tsx:154-162 | the grid has exactly one line per guess |
| `Share.Outcome` | pages/index.tsx:150 | the line is `I gave up!` exactly when the game was not won; a won line starts with `I got it in `, the count, `/` and `maxGuesses` |
| `Share.Encode` | pages/index.tsx:146-164 | there is a text exactly when there is a mystery; it starts with the header naming the mystery, ends with the footer, and has six characters per guess between the preamble and the footer |
| `Share.ShareFrame` | pages/index.tsx:149-164 | for any number of guesses, including none, the text starts with the header, ends with the footer, and is the preamble, six characters per guess and the footer long |
| `Share.ShareLayout` | pages/index.tsx:154-162 | row `k` sits in the text at the preamble's length plus `6k` |
| `Share.SameCelebRowAllGreen` | pages/index.tsx:155-161 | a guess equal to the mystery shares as five green squares |
| `Game.Initial` | pages/index.tsx:33-41 | the starting session, still loading, with no mystery, no guesses, flags down and eight guesses, satisfies the invariant |
| `Game.Mounted` | pages/index.tsx:44-51 | loading sets the mystery to roster record `i`, stops loading, and keeps the other fields |
| `Game.Selected` | pages/index.tsx:79-99 | a name already guessed leaves the whole session unchanged; a new guess is appended at the end, so the length grows by one and earlier guesses stay; `won` holds exactly when its name is the mystery's; `gameOver` holds exactly when won or the count has reached `maxGuesses`; mystery, `gaveUp`, `maxGuesses` and `loading` are unchanged |
| `Game.GaveUp` | pages/index.tsx:102-108 | giving up sets `gameOver` and `gaveUp` and keeps guesses, `won`, mystery, `maxGuesses` and `loading` |
| `Game.Fresh` | pages/index.tsx:111-122 | a new game has no guesses, every flag down, `maxGuesses` 8, and roster record `i` as the mystery |
| `Game.MountedKeepsInv` | pages/index.tsx:44-51 | loading keeps the session invariant |
| `Game.SelectedKeepsInv` | pages/index.tsx:79-99 | a guess in a running game keeps the invariant: distinct names, at most eight guesses, won exactly when some guess named the mystery, which is then the last one, over exactly when won, given up or out of guesses |
| `Game.GaveUpKeepsInv` | pages/index.tsx:102-108 | giving up after at least one guess keeps the invariant |
| `Game.FreshSatisfiesInv` | pages/index.tsx:111-122 | a new game satisfies the invariant |
| `Game.LostMeansOutOfGuesses` | pages/index.tsx:96 | a game that is over but neither won nor given up has used all eight guesses |
| `Game.OfferedGuessIsAppended` | pages/index.tsx:84-91 | a record offered by the search is never a repeat, so choosing it always appends it |
| `Game.WonLastRowAllGreen` | pages/index.tsx:89-97 | in a won game the last guess is the mystery, so its share row is all green |
| `Game.ExamplePlay` | pages/index.tsx:79-99 | with Leonardo DiCaprio as mystery, Tom Hanks gets ↓ on age and the game goes on; guessing Leonardo DiCaprio next wins |
| `Game.RowText` | pages/index.tsx:155-161 | the row built from the five `isMatch` tests of one guess is `Share.Row`: five glyphs, 🟩 for a match, in the order profession, age, country, oscars, grammys, then a line break |
| `Game.AppendRows` | pages/index.tsx:154-162 | appending one row per guess in a loop adds exactly `Share.Grid` to the text built so far |
| `Game.Game.constructor` | pages/index.tsx:33-41 | the page starts in the initial session, which satisfies the invariant |
| `Game.Game.Mount` | pages/index.tsx:44-51 | the mount effect moves the session to `Mounted` and keeps the invariant |
| `Game.Game.SelectCeleb` | pages/index.tsx:79-99 | submitting a guess moves the session to `Selected` and keeps the invariant |
| `Game.Game.HandleGiveUp` | pages/index.tsx:102-108 | giving up moves the session to `GaveUp` and keeps the invariant |
| `Game.Game.HandleNewGame` | pages/index.tsx:111-122 | a new game replaces every field with `Fresh(i)`, which satisfies the invariant |
| `Game.Game.ShareResults` | pages/index.tsx:146-164 | the text built row by row equals `Share.Encode`: nothing without a mystery, otherwise header, outcome line, blank line, one row per guess, footer |

## Left out

- Rendering: the JSX markup, the guess table, the instructions panel, and React's
  `useState`/`useEffect` scheduling (pages/index.tsx:171-327). Each state update is modelled
  as one transition on the session.
- The search box's own state, `searchTerm` and `filteredCelebs`, and the clearing of both
  when a guess is made (pages/index.tsx:30-31, 64-65, 80-81). Only the filter that computes
  the list is modelled (`Search.Search`).
- The "has played" flag in `localStorage` and the choice to show the instructions
  (pages/index.tsx:53-59). These are browser storage I/O.
- `navigator.clipboard.writeText` and the two `alert` calls (pages/index.tsx:166-168). These
  are asynchronous browser calls. Only the text handed to them is modelled.
- `Math.random` and `Math.floor` (pages/index.tsx:46, 112). These are replaced by the index
  parameter `i`.
- `Search.Lower`: only the ASCII letters are lower-cased. JavaScript's full Unicode
  `toLowerCase` is not modelled: it also maps accented and other non-ASCII capitals, and it
  can change a string's length.
- Text is a sequence of Unicode code points, so each of 🟩 and ⬜ is one character. JavaScript
  counts two UTF-16 units for 🟩. The characters are the same, but the lengths in
  `Share.ShareLayout` count code points.
- Numbers are unbounded integers, not IEEE doubles. Every number in the game is a small
  integer, so nothing here depends on the difference.
- The other components (leaderboard, difficulty, category and era selectors, featured
  categories, SEO metadata, the analytics hook, the app shell, the sitemap configuration) hold
  no game logic and are not part of this model.
- The share text does not tell a lost game from one that was given up: both print
  `I gave up!`, while the page's own message does distinguish them. `Share.Outcome` keeps the
  source's behaviour.
