/**
 * The match evaluator (pages/index.tsx, isMatch and getDirectionalHint): how
 * one property of a guess compares with the mystery celebrity. The mystery is
 * an Option because the game holds no mystery until it has loaded.
 */
module Evaluator {
  import opened Wrappers
  import opened Celebs

  /** The keys of a celebrity record. */
  datatype Property = Name | Profession | Age | Country | Oscars | Grammys

  /** The numeric keys, the only ones that get a directional hint. */
  type NumericProperty = p: Property | p.Age? || p.Oscars? || p.Grammys? witness Age

  /** A property's value: the record mixes strings and numbers. */
  datatype Value = Text(s: string) | Number(n: int)

  /** `guess[property]` */
  function Get(c: Celeb, p: Property): Value {
    match p
    case Name => Text(c.name)
    case Profession => Text(c.profession)
    case Age => Number(c.age)
    case Country => Text(c.country)
    case Oscars => Number(c.oscars)
    case Grammys => Number(c.grammys)
  }

  /** `guess[property]` for a numeric property. */
  function NumberOf(c: Celeb, p: NumericProperty): (n: int)
    ensures Get(c, p) == Number(n)
  {
    match p
    case Age => c.age
    case Oscars => c.oscars
    case Grammys => c.grammys
  }

  /**
   * Whether `guess` agrees with the mystery on `p`: never while there is no
   * mystery, always when the guess is the mystery. MatchEverywhereIffSame
   * gives the converse over all properties.
   */
  predicate IsMatch(mystery: Option<Celeb>, guess: Celeb, p: Property)
    ensures IsMatch(mystery, guess, p) ==> mystery.Some?
    ensures mystery == Some(guess) ==> IsMatch(mystery, guess, p)
  {
    mystery.Some? && Get(guess, p) == Get(mystery.value, p)
  }

  /**
   * The arrow shown beside a numeric cell: Higher (↑) when the mystery's value
   * is higher than the guess's, Lower (↓) when it is lower.
   */
  datatype Hint = Higher | Lower | NoHint

  function DirectionalHint(mystery: Option<Celeb>, guess: Celeb, p: NumericProperty): (h: Hint)
    ensures h == NoHint <==> mystery.None? || NumberOf(guess, p) == NumberOf(mystery.value, p)
    ensures h == Higher <==> mystery.Some? && NumberOf(guess, p) < NumberOf(mystery.value, p)
    ensures h == Lower <==> mystery.Some? && NumberOf(guess, p) > NumberOf(mystery.value, p)
  {
    if mystery.None? then NoHint
    else if NumberOf(guess, p) == NumberOf(mystery.value, p) then NoHint
    else if NumberOf(guess, p) < NumberOf(mystery.value, p) then Higher
    else Lower
  }

  /** A guess matches the mystery on every property exactly when it is the mystery. */
  lemma MatchEverywhereIffSame(mystery: Celeb, guess: Celeb)
    ensures (forall p :: IsMatch(Some(mystery), guess, p)) <==> guess == mystery
  {
    if forall p :: IsMatch(Some(mystery), guess, p) {
      assert IsMatch(Some(mystery), guess, Name);
      assert IsMatch(Some(mystery), guess, Profession);
      assert IsMatch(Some(mystery), guess, Age);
      assert IsMatch(Some(mystery), guess, Country);
      assert IsMatch(Some(mystery), guess, Oscars);
      assert IsMatch(Some(mystery), guess, Grammys);
    }
  }

  /** On a numeric property the arrow is absent exactly when the cell matches. */
  lemma HintAbsentIffMatch(mystery: Celeb, guess: Celeb, p: NumericProperty)
    ensures DirectionalHint(Some(mystery), guess, p) == NoHint <==> IsMatch(Some(mystery), guess, p)
  {
  }

  /** Swapping guess and mystery turns an up arrow into a down arrow and back. */
  lemma HintSwaps(a: Celeb, b: Celeb, p: NumericProperty)
    ensures DirectionalHint(Some(a), b, p) == Higher <==> DirectionalHint(Some(b), a, p) == Lower
  {
  }
}
