/**
 * The text the "Share Results" button puts on the clipboard
 * (pages/index.tsx, shareResults): a header naming the mystery, the outcome
 * line, a blank line, one row of five glyphs per guess, and a footer.
 * Glyphs are single characters (Unicode code points).
 */
module Share {
  import opened Wrappers
  import opened Celebs
  import opened Evaluator

  const Green: char := '🟩'
  const White: char := '⬜'

  /** The footer, which starts with its own line break. */
  const Footer: string := "\nPlay at: https://celebwordle.me"

  /** The properties a share row reports, in row order. */
  const RowOrder: seq<Property> := [Profession, Age, Country, Oscars, Grammys]

  function Glyph(matched: bool): char {
    if matched then Green else White
  }

  // ---- numbers as a template literal writes them ----

  function Digit(d: nat): (c: char)
    requires d < 10
    ensures '0' <= c <= '9'
  {
    ('0' as int + d) as char
  }

  predicate AllDigits(s: string) {
    forall i :: 0 <= i < |s| ==> '0' <= s[i] <= '9'
  }

  /** Decimal digits of `n`, without leading zeros. */
  function NatToString(n: nat): (r: string)
    ensures |r| > 0 && AllDigits(r)
    ensures r[0] == '0' ==> n == 0
    decreases n
  {
    if n < 10 then [Digit(n)] else NatToString(n / 10) + [Digit(n % 10)]
  }

  function IntToString(i: int): string {
    if i < 0 then "-" + NatToString(-i) else NatToString(i)
  }

  /** Reads decimal digits back: the inverse of NatToString. */
  function ParseNat(s: string): nat
    requires AllDigits(s)
  {
    if s == [] then 0 else 10 * ParseNat(s[..|s| - 1]) + (s[|s| - 1] as int - '0' as int)
  }

  lemma {:induction false} NatToStringRoundTrip(n: nat)
    ensures ParseNat(NatToString(n)) == n
    decreases n
  {
    if n >= 10 {
      var s := NatToString(n);
      assert s[..|s| - 1] == NatToString(n / 10);
      NatToStringRoundTrip(n / 10);
    }
  }

  // ---- the text ----

  /** The row for one guess: five glyphs, then a line break. */
  function Row(mystery: Option<Celeb>, guess: Celeb): (r: string)
    ensures |r| == 6 && r[5] == '\n'
    ensures forall j :: 0 <= j < 5 ==> r[j] == Glyph(IsMatch(mystery, guess, RowOrder[j]))
  {
    [Glyph(IsMatch(mystery, guess, Profession)),
     Glyph(IsMatch(mystery, guess, Age)),
     Glyph(IsMatch(mystery, guess, Country)),
     Glyph(IsMatch(mystery, guess, Oscars)),
     Glyph(IsMatch(mystery, guess, Grammys)),
     '\n']
  }

  /** The rows of the first `n` guesses, in guessing order. */
  function Rows(mystery: Option<Celeb>, guesses: seq<Celeb>, n: nat): (r: string)
    requires n <= |guesses|
    ensures |r| == 6 * n
    decreases n
  {
    if n == 0 then "" else Rows(mystery, guesses, n - 1) + Row(mystery, guesses[n - 1])
  }

  /** The rows of all guesses. */
  function Grid(mystery: Option<Celeb>, guesses: seq<Celeb>): string {
    Rows(mystery, guesses, |guesses|)
  }

  function Header(name: string): string {
    "Celeb Wordle - " + name + "\n"
  }

  /** The outcome line: a loss and a give-up read the same. */
  function Outcome(won: bool, count: nat, maxGuesses: int): (r: string)
    ensures r == "I gave up!" <==> !won
    ensures won ==> "I got it in " + NatToString(count) + "/" + IntToString(maxGuesses) <= r
  {
    if won then "I got it in " + NatToString(count) + "/" + IntToString(maxGuesses) + " guesses!"
    else "I gave up!"
  }

  /** Everything before the first row. */
  function Preamble(name: string, won: bool, count: nat, maxGuesses: int): string {
    Header(name) + Outcome(won, count, maxGuesses) + "\n\n"
  }

  /** The share text for a game whose mystery is `mystery`. */
  function Text(mystery: Celeb, guesses: seq<Celeb>, won: bool, maxGuesses: int): string {
    Preamble(mystery.name, won, |guesses|, maxGuesses) + Grid(Some(mystery), guesses) + Footer
  }

  /** The share text, or None when there is no mystery to report. */
  function Encode(mystery: Option<Celeb>, guesses: seq<Celeb>, won: bool, maxGuesses: int): (r: Option<string>)
    ensures r.Some? <==> mystery.Some?
    ensures mystery.Some? ==>
              Header(mystery.value.name) <= r.value &&
              |r.value| == |Preamble(mystery.value.name, won, |guesses|, maxGuesses)| + 6 * |guesses| + |Footer| &&
              r.value[|r.value| - |Footer|..] == Footer
  {
    if mystery.None? then None
    else
      ShareFrame(mystery.value, guesses, won, maxGuesses);
      Some(Text(mystery.value, guesses, won, maxGuesses))
  }

  /** Row `k` of the rows of the first `n` guesses is the row of guess `k`. */
  lemma {:induction false} RowsRowAt(mystery: Option<Celeb>, guesses: seq<Celeb>, n: nat, k: int)
    requires n <= |guesses| && 0 <= k < n
    ensures Rows(mystery, guesses, n)[6 * k..6 * k + 6] == Row(mystery, guesses[k])
    decreases n
  {
    var front, last := Rows(mystery, guesses, n - 1), Row(mystery, guesses[n - 1]);
    assert Rows(mystery, guesses, n) == front + last;
    if k < n - 1 {
      RowsRowAt(mystery, guesses, n - 1, k);
      assert (front + last)[6 * k..6 * k + 6] == front[6 * k..6 * k + 6];
    } else {
      assert (front + last)[|front|..|front| + 6] == last;
    }
  }

  /** Row `k` of the grid is exactly the row of guess `k`, so the rows keep guessing order. */
  lemma GridRowAt(mystery: Option<Celeb>, guesses: seq<Celeb>, k: int)
    requires 0 <= k < |guesses|
    ensures Grid(mystery, guesses)[6 * k..6 * k + 6] == Row(mystery, guesses[k])
  {
    RowsRowAt(mystery, guesses, |guesses|, k);
  }

  /** The number of times `ch` occurs in `s`. */
  function Count(s: string, ch: char): nat
    decreases |s|
  {
    if s == [] then 0 else Count(s[..|s| - 1], ch) + (if s[|s| - 1] == ch then 1 else 0)
  }

  lemma {:induction false} CountAppend(a: string, b: string, ch: char)
    ensures Count(a + b, ch) == Count(a, ch) + Count(b, ch)
    decreases |b|
  {
    if b == [] {
      assert a + b == a;
    } else {
      var b' := b[..|b| - 1];
      assert (a + b)[..|a + b| - 1] == a + b';
      CountAppend(a, b', ch);
    }
  }

  lemma {:induction false} CountAbsent(s: string, ch: char)
    requires forall i :: 0 <= i < |s| ==> s[i] != ch
    ensures Count(s, ch) == 0
    decreases |s|
  {
    if s != [] {
      CountAbsent(s[..|s| - 1], ch);
    }
  }

  lemma RowHasOneLineBreak(mystery: Option<Celeb>, guess: Celeb)
    ensures Count(Row(mystery, guess), '\n') == 1
  {
    var r := Row(mystery, guess);
    CountAbsent(r[..5], '\n');
    assert r == r[..5] + [r[5]];
    CountAppend(r[..5], [r[5]], '\n');
  }

  lemma {:induction false} RowsLineCount(mystery: Option<Celeb>, guesses: seq<Celeb>, n: nat)
    requires n <= |guesses|
    ensures Count(Rows(mystery, guesses, n), '\n') == n
    decreases n
  {
    if n > 0 {
      RowsLineCount(mystery, guesses, n - 1);
      RowHasOneLineBreak(mystery, guesses[n - 1]);
      CountAppend(Rows(mystery, guesses, n - 1), Row(mystery, guesses[n - 1]), '\n');
    }
  }

  /** The grid has exactly one line per guess. */
  lemma GridLineCount(mystery: Option<Celeb>, guesses: seq<Celeb>)
    ensures Count(Grid(mystery, guesses), '\n') == |guesses|
  {
    RowsLineCount(mystery, guesses, |guesses|);
  }

  /** A slice that falls inside the middle part of `a + b + c`. */
  lemma SliceOfMiddle(a: string, b: string, c: string, i: int, j: int)
    requires 0 <= i <= j <= |b|
    ensures (a + b + c)[|a| + i..|a| + j] == b[i..j]
  {
  }

  /**
   * The frame of the share text, whatever the number of guesses: the header
   * first, the footer last, and six characters per guess between the preamble
   * and the footer.
   */
  lemma ShareFrame(mystery: Celeb, guesses: seq<Celeb>, won: bool, maxGuesses: int)
    ensures |Text(mystery, guesses, won, maxGuesses)|
            == |Preamble(mystery.name, won, |guesses|, maxGuesses)| + 6 * |guesses| + |Footer|
    ensures Header(mystery.name) <= Text(mystery, guesses, won, maxGuesses)
    ensures Text(mystery, guesses, won, maxGuesses)[|Text(mystery, guesses, won, maxGuesses)| - |Footer|..] == Footer
  {
    var h := Header(mystery.name);
    var o := Outcome(won, |guesses|, maxGuesses) + "\n\n";
    var pre := Preamble(mystery.name, won, |guesses|, maxGuesses);
    var grid := Grid(Some(mystery), guesses);
    var t := Text(mystery, guesses, won, maxGuesses);
    PrefixOfConcat(h, o + grid + Footer);
    assert t == h + (o + grid + Footer);
    SuffixOfConcat(pre + grid, Footer);
  }

  /** Row `k` of the grid sits six characters per guess after the preamble. */
  lemma ShareLayout(mystery: Celeb, guesses: seq<Celeb>, won: bool, maxGuesses: int, k: int)
    requires 0 <= k < |guesses|
    ensures Text(mystery, guesses, won, maxGuesses)[|Preamble(mystery.name, won, |guesses|, maxGuesses)| + 6 * k..
                                                   |Preamble(mystery.name, won, |guesses|, maxGuesses)| + 6 * k + 6]
            == Row(Some(mystery), guesses[k])
  {
    var pre := Preamble(mystery.name, won, |guesses|, maxGuesses);
    var grid := Grid(Some(mystery), guesses);
    assert Text(mystery, guesses, won, maxGuesses) == pre + grid + Footer;
    GridRowAt(Some(mystery), guesses, k);
    SliceOfMiddle(pre, grid, Footer, 6 * k, 6 * k + 6);
  }

  lemma PrefixOfConcat(a: string, b: string)
    ensures a <= a + b
  {
    assert (a + b)[..|a|] == a;
  }

  lemma SuffixOfConcat(a: string, b: string)
    ensures (a + b)[|a + b| - |b|..] == b
  {
  }

  /** A guess equal to the mystery shares as a row of five green squares. */
  lemma SameCelebRowAllGreen(mystery: Celeb)
    ensures Row(Some(mystery), mystery) == [Green, Green, Green, Green, Green, '\n']
  {
  }
}
