/**
 * The search filter behind the guess box (pages/index.tsx, handleSearchChange):
 * the roster records whose lower-cased name contains the lower-cased term and
 * that have not been guessed yet, in roster order. Lower-casing is ASCII only.
 */
module Search {
  import opened Celebs

  function LowerChar(c: char): char {
    if 'A' <= c <= 'Z' then (c as int + 32) as char else c
  }

  /** `s.toLowerCase()`, restricted to the ASCII letters. */
  function Lower(s: string): (r: string)
    ensures |r| == |s|
    ensures forall i :: 0 <= i < |s| ==> r[i] == LowerChar(s[i])
    ensures forall i :: 0 <= i < |r| ==> !('A' <= r[i] <= 'Z')
  {
    if s == [] then [] else [LowerChar(s[0])] + Lower(s[1..])
  }

  /**
   * `s.includes(t)`: some suffix of `s` starts with `t`. The empty term is
   * included in every string; a term longer than `s` never is.
   * IncludesIffOccurs proves this is substring containment.
   */
  predicate Includes(s: string, t: string)
    ensures |t| == 0 ==> Includes(s, t)
    ensures Includes(s, t) ==> |t| <= |s|
    decreases |s|
  {
    t <= s || (|s| > 0 && Includes(s[1..], t))
  }

  /** `t` sits in `s` at position `i`. */
  ghost predicate OccursAt(s: string, t: string, i: int) {
    0 <= i && i + |t| <= |s| && s[i..i + |t|] == t
  }

  /**
   * The filter's test for one record: the lower-cased term occurs somewhere
   * in the lower-cased name, and no guess has the record's name.
   */
  predicate IsCandidate(c: Celeb, guesses: seq<Celeb>, term: string)
    ensures IsCandidate(c, guesses, term) <==>
              (exists i :: OccursAt(Lower(c.name), Lower(term), i)) &&
              forall g :: g in guesses ==> g.name != c.name
  {
    IncludesIffOccurs(Lower(c.name), Lower(term));
    Includes(Lower(c.name), Lower(term)) && !Guessed(guesses, c.name)
  }

  /** `r` is `s` with some elements dropped, the rest kept in order. */
  ghost predicate IsSubsequence(r: seq<Celeb>, s: seq<Celeb>)
    decreases |s|
  {
    if r == [] then true
    else if s == [] then false
    else (r[0] == s[0] && IsSubsequence(r[1..], s[1..])) || IsSubsequence(r, s[1..])
  }

  /** `cs.filter(c => IsCandidate(c, guesses, term))` */
  function Filter(cs: seq<Celeb>, guesses: seq<Celeb>, term: string): (r: seq<Celeb>)
    ensures forall c :: c in r ==> c in cs && IsCandidate(c, guesses, term)
    ensures forall c :: c in cs && IsCandidate(c, guesses, term) ==> c in r
    ensures forall c :: multiset(r)[c] == if IsCandidate(c, guesses, term) then multiset(cs)[c] else 0
    ensures IsSubsequence(r, cs)
  {
    if cs == [] then []
    else
      assert cs == [cs[0]] + cs[1..];
      if IsCandidate(cs[0], guesses, term) then [cs[0]] + Filter(cs[1..], guesses, term)
      else Filter(cs[1..], guesses, term)
  }

  /** The list the dropdown shows for `term`; nothing at all for the empty term. */
  function Search(roster: seq<Celeb>, guesses: seq<Celeb>, term: string): (r: seq<Celeb>)
    ensures |term| == 0 ==> r == []
    ensures |term| > 0 ==> forall c :: c in r <==> c in roster && IsCandidate(c, guesses, term)
    ensures |term| > 0 ==> forall c ::
              multiset(r)[c] == if IsCandidate(c, guesses, term) then multiset(roster)[c] else 0
    ensures IsSubsequence(r, roster)
  {
    if |term| > 0 then Filter(roster, guesses, term) else []
  }

  /** `Includes` is substring containment. */
  lemma {:induction false} IncludesIffOccurs(s: string, t: string)
    ensures Includes(s, t) <==> exists i :: OccursAt(s, t, i)
    decreases |s|
  {
    if t <= s {
      assert s[0..|t|] == t;
      assert OccursAt(s, t, 0);
    } else if |s| > 0 {
      IncludesIffOccurs(s[1..], t);
      if Includes(s[1..], t) {
        var i :| OccursAt(s[1..], t, i);
        assert s[1..][i..i + |t|] == s[i + 1..i + 1 + |t|];
        assert OccursAt(s, t, i + 1);
      }
      if i :| OccursAt(s, t, i) {
        if i > 0 {
          assert s[1..][i - 1..i - 1 + |t|] == s[i..i + |t|];
          assert OccursAt(s[1..], t, i - 1);
        }
      }
    }
  }

  /** Lower-casing twice changes nothing more. */
  lemma LowerIdempotent(s: string)
    ensures Lower(Lower(s)) == Lower(s)
  {
  }

  /** Typing an unguessed roster name in full (in any ASCII case) offers that record. */
  lemma FullNameIsOffered(roster: seq<Celeb>, c: Celeb, guesses: seq<Celeb>, term: string)
    requires c in roster && |c.name| > 0 && !Guessed(guesses, c.name)
    requires Lower(term) == Lower(c.name)
    ensures c in Search(roster, guesses, term)
  {
    assert Lower(term) <= Lower(c.name);
  }

  /** Nothing already guessed is ever offered again. */
  lemma GuessedNeverOffered(roster: seq<Celeb>, guesses: seq<Celeb>, term: string, i: int)
    requires 0 <= i < |guesses|
    ensures guesses[i].name !in set c | c in Search(roster, guesses, term) :: c.name
  {
    var r := Search(roster, guesses, term);
    if c :| c in r && c.name == guesses[i].name {
      assert IsCandidate(c, guesses, term);
      assert Guessed(guesses, c.name);
    }
  }
}
