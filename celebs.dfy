/**
 * The celebrity record and the fixed roster the game draws from
 * (pages/index.tsx, dummyCelebs). A record's name is its identity.
 */
module Celebs {

  datatype Celeb = Celeb(
    name: string,
    profession: string,
    age: int,
    country: string,
    oscars: int,
    grammys: int)

  /** The roster, in the order the search results list it. */
  const Roster: seq<Celeb> := [
    Celeb("Beyoncé", "Singer", 42, "USA", 0, 32),
    Celeb("Leonardo DiCaprio", "Actor", 49, "USA", 1, 0),
    Celeb("Taylor Swift", "Singer", 34, "USA", 0, 14),
    Celeb("Tom Hanks", "Actor", 67, "USA", 2, 0),
    Celeb("Jennifer Lopez", "Singer/Actor", 54, "USA", 0, 0),
    Celeb("Brad Pitt", "Actor", 60, "USA", 2, 0),
    Celeb("Meryl Streep", "Actor", 74, "USA", 3, 0),
    Celeb("Ed Sheeran", "Singer", 33, "UK", 0, 4),
    Celeb("Rihanna", "Singer", 36, "Barbados", 0, 9),
    Celeb("Dwayne Johnson", "Actor", 52, "USA", 0, 0)
  ]

  /** No two records of `cs` share a name. */
  predicate NamesDistinct(cs: seq<Celeb>) {
    forall i, j :: 0 <= i < j < |cs| ==> cs[i].name != cs[j].name
  }

  /** `guesses.some(guess => guess.name === name)` */
  predicate Guessed(guesses: seq<Celeb>, name: string) {
    exists i :: 0 <= i < |guesses| && guesses[i].name == name
  }

  /** The roster has ten records and its names are its identity. */
  lemma RosterNamesDistinct()
    ensures |Roster| == 10
    ensures NamesDistinct(Roster)
  {
    // Every pair of names differs in its first letter or in its length.
    forall i, j | 0 <= i < j < |Roster|
      ensures Roster[i].name != Roster[j].name
    {
      var a, b := Roster[i].name, Roster[j].name;
      assert |a| != |b| || a[0] != b[0];
    }
  }

  /** Within the roster, a name picks out exactly one record. */
  lemma SameNameSameCeleb(a: Celeb, b: Celeb)
    requires a in Roster && b in Roster
    requires a.name == b.name
    ensures a == b
  {
    RosterNamesDistinct();
    var i :| 0 <= i < |Roster| && Roster[i] == a;
    var j :| 0 <= j < |Roster| && Roster[j] == b;
    assert !(i < j) && !(j < i);
  }
}
