/** Letters-from-letters: when a guess can be spelled with the letters of the
    root word, each letter used at most as often as the root word holds it.
    The game's check (GameSession.IsPossible) is a greedy scan that deletes the
    first matching character from a working copy of the root word; this module
    holds the string operations that scan uses and the specification it meets. */
module Spelling {

  datatype Option<T> = None | Some(value: T)

  /** Number of times `c` occurs in `s`. */
  function Occurrences(c: char, s: string): (n: nat)
    ensures n <= |s|
  {
    if s == [] then 0 else (if s[0] == c then 1 else 0) + Occurrences(c, s[1..])
  }

  /** The specification of spellability: the letters of `word`, counted with
      repetition, form a sub-multiset of the letters of `root`. */
  predicate CanSpell(root: string, word: string) {
    multiset(word) <= multiset(root)
  }

  /** `String.firstIndex(of:)`: the position of the first `c` in `s`, if any. */
  function FirstIndex(s: string, c: char): (r: Option<nat>)
    ensures r.None? <==> c !in s
    ensures r.Some? ==> r.value < |s| && s[r.value] == c && c !in s[..r.value]
  {
    if s == [] then None
    else if s[0] == c then Some(0)
    else
      match FirstIndex(s[1..], c)
      case None => None
      case Some(k) =>
        assert s[..k + 1] == [s[0]] + s[1..][..k];
        Some(k + 1)
  }

  /** `String.remove(at:)`: `s` without the character at position `i`. */
  function RemoveAt(s: string, i: nat): (r: string)
    requires i < |s|
    ensures |r| == |s| - 1
    ensures multiset(r) == multiset(s) - multiset{s[i]}
    ensures forall k :: 0 <= k < i ==> r[k] == s[k]
    ensures forall k :: i <= k < |r| ==> r[k] == s[k + 1]
  {
    var r := s[..i] + s[i + 1..];
    assert multiset(r) == multiset(s) - multiset{s[i]} by {
      assert s == s[..i] + [s[i]] + s[i + 1..];
    }
    r
  }

  /** The count of a character is its multiplicity in the multiset of the string. */
  lemma {:induction false} OccurrencesIsMultiplicity(c: char, s: string)
    ensures Occurrences(c, s) == multiset(s)[c]
  {
    if s != [] {
      assert s == [s[0]] + s[1..];
      OccurrencesIsMultiplicity(c, s[1..]);
    }
  }

  /** Spellability, stated letter by letter: every character occurs in the
      guess at most as often as in the root word. */
  lemma CanSpellIffCountsBounded(root: string, word: string)
    ensures CanSpell(root, word) <==>
            forall c :: Occurrences(c, word) <= Occurrences(c, root)
  {
    if CanSpell(root, word) {
      forall c ensures Occurrences(c, word) <= Occurrences(c, root) {
        OccurrencesIsMultiplicity(c, word);
        OccurrencesIsMultiplicity(c, root);
      }
    } else {
      var c :| multiset(word)[c] > multiset(root)[c];
      OccurrencesIsMultiplicity(c, word);
      OccurrencesIsMultiplicity(c, root);
    }
  }

  /** A guess that can be spelled is never longer than the root word. */
  lemma CanSpellBoundsLength(root: string, word: string)
    requires CanSpell(root, word)
    ensures |word| <= |root|
  {
    var rest := multiset(root) - multiset(word);
    assert multiset(root) == multiset(word) + rest;
    assert |multiset(root)| == |multiset(word)| + |rest|;
  }

  /** Only the letter counts matter: two guesses with the same count of every
      letter are spellable from two roots with the same count of every letter
      alike, whatever the order of the letters. */
  lemma CanSpellIgnoresOrder(root: string, root': string, word: string, word': string)
    requires forall c :: Occurrences(c, root) == Occurrences(c, root')
    requires forall c :: Occurrences(c, word) == Occurrences(c, word')
    ensures CanSpell(root, word) == CanSpell(root', word')
  {
    CanSpellIffCountsBounded(root, word);
    CanSpellIffCountsBounded(root', word');
    if CanSpell(root, word) {
      forall c ensures Occurrences(c, word') <= Occurrences(c, root') {
        assert Occurrences(c, word) <= Occurrences(c, root);
      }
    }
    if CanSpell(root', word') {
      forall c ensures Occurrences(c, word) <= Occurrences(c, root) {
        assert Occurrences(c, word') <= Occurrences(c, root');
      }
    }
  }

  /** Every word can be spelled from itself, and a word containing a letter
      that the root word lacks cannot be spelled. */
  lemma CanSpellSelfAndMissingLetter(root: string, word: string, c: char)
    ensures CanSpell(word, word)
    ensures c in word && c !in root ==> !CanSpell(root, word)
  {
    if c in word && c !in root {
      assert multiset(word)[c] > 0;
    }
  }

  /** Prefixes of a spellable guess are spellable: once a prefix fails, every
      longer guess fails too, which is why the scan may stop at the first
      letter that has no match left. */
  lemma {:induction false} CanSpellPrefix(root: string, word: string, k: nat)
    requires k <= |word|
    requires CanSpell(root, word)
    ensures CanSpell(root, word[..k])
  {
    assert word == word[..k] + word[k..];
    assert multiset(word) == multiset(word[..k]) + multiset(word[k..]);
  }
}
