/** The word-submission logic of the WordScramble game: the state of one game
    screen (the words accepted so far, the root word, the text being typed,
    the score and the error alert), the three checks an answer must pass, and
    the two actions that change the state: submitting the typed answer and
    refreshing the root word. The platform spell checker is a parameter
    `isReal`; the choice of a new root word from the bundled word list is a
    parameter `newRoot`. */
module WordScramble {
  import opened Spelling
  import opened Normalization

  /** The three alerts the game can raise, in the order it checks for them. */
  datatype ValidationError = AlreadyUsed | NotPossible | NotRecognized {

    function Title(): string {
      match this
      case AlreadyUsed => "Word used already"
      case NotPossible => "Word not possible"
      case NotRecognized => "Word not recognized"
    }

    /** The alert's message; only the spellability alert names the root word,
        which ends its message. */
    function Message(root: string): (m: string)
      ensures NotPossible? ==> |root| < |m| && m[|m| - |root|..] == root
    {
      match this
      case AlreadyUsed => "Be more original"
      case NotPossible => "You can't spell that word from " + root
      case NotRecognized => "This word doesn't contain in english"
    }
  }

  /** The alert tells the player which check failed: no two errors share a
      title, and for any root word no two share a message. Only the
      spellability alert depends on the root word. */
  lemma AlertsIdentifyTheCheck(e: ValidationError, e': ValidationError, root: string)
    ensures e.Title() == e'.Title() <==> e == e'
    ensures e.Message(root) == e'.Message(root) <==> e == e'
    ensures !e.NotPossible? ==> e.Message(root) == e.Message([])
  {
    if e != e' {
      assert e.Title()[9] != e'.Title()[9];
      assert e.Message(root)[0] != e'.Message(root)[0];
    }
  }

  /** What submitting a normalised answer leads to. */
  datatype Verdict = Ignored | Rejected(error: ValidationError) | Accepted

  /** The decision taken on a normalised `answer`: answers of at most two
      characters and the root word itself are ignored without an alert; then
      the originality, spellability and dictionary checks run in that order and
      the first that fails names the alert; an answer passing all three is
      accepted. */
  function Classify(root: string, used: seq<string>, answer: string, isReal: string -> bool): (v: Verdict)
    ensures v.Ignored? <==> |answer| <= 2 || answer == root
    ensures v == Rejected(AlreadyUsed) <==> !v.Ignored? && answer in used
    ensures v == Rejected(NotPossible) <==>
              !v.Ignored? && answer !in used && !CanSpell(root, answer)
    ensures v == Rejected(NotRecognized) <==>
              !v.Ignored? && answer !in used && CanSpell(root, answer) && !isReal(answer)
    ensures v.Accepted? <==>
              && 2 < |answer| <= |root| && answer != root && answer !in used
              && CanSpell(root, answer) && isReal(answer)
  {
    if |answer| <= 2 || answer == root then Ignored
    else if answer in used then Rejected(AlreadyUsed)
    else if !CanSpell(root, answer) then Rejected(NotPossible)
    else if !isReal(answer) then Rejected(NotRecognized)
    else
      CanSpellBoundsLength(root, answer);
      Accepted
  }

  /** Once an answer has been accepted, submitting it again is always refused
      as already used, never with another alert and never accepted twice. */
  lemma ResubmittingIsAlreadyUsed(root: string, used: seq<string>, answer: string,
                                  isReal: string -> bool, isReal': string -> bool)
    requires Classify(root, used, answer, isReal).Accepted?
    ensures Classify(root, [answer] + used, answer, isReal') == Rejected(AlreadyUsed)
  {
    assert answer in [answer] + used;
  }

  /** Typed text with capitals and surrounding whitespace normalises to the
      bare lower-case word. */
  lemma NormalizeExample()
    ensures Normalize(" Silk\n") == "silk"
  {
    LowercasedExample();
    TrimmedExample();
  }

  lemma LowercasedExample()
    ensures Lowercased(" Silk\n") == " silk\n"
  {
  }

  lemma TrimmedExample()
    ensures Trimmed(" silk\n") == "silk"
  {
    assert IsWhitespace(' ') && !IsWhitespace('s');
    assert TrimStartIndex(" silk\n", 0) == 1;
    assert IsWhitespace('\n') && !IsWhitespace('k');
    assert TrimEndIndex(" silk\n", 1, 6) == 5;
    assert " silk\n"[1..5] == "silk";
  }

  /** Which guesses can be spelled from "silkworm". */
  lemma SilkwormSpelling()
    ensures CanSpell("silkworm", "silk")
    ensures !CanSpell("silkworm", "silkworms")
    ensures !CanSpell("silkworm", "zzz")
  {
    assert "silk" == "silkworm"[..4];
    CanSpellPrefix("silkworm", "silkworm", 4);
    CanSpellSelfAndMissingLetter("silkworm", "zzz", 'z');
    assert "silkworms" == "silkworm" + "s";
    assert multiset("silkworms")['s'] == multiset("silkworm")['s'] + 1;
  }

  /** The example round of the game with root word "silkworm". */
  lemma SilkwormRound(isReal: string -> bool)
    requires isReal("silk")
    ensures Classify("silkworm", [], "silk", isReal) == Accepted
    ensures Classify("silkworm", ["silk"], "silk", isReal) == Rejected(AlreadyUsed)
    ensures Classify("silkworm", ["silk"], "silkworms", isReal) == Rejected(NotPossible)
    ensures Classify("silkworm", ["silk"], "sw", isReal) == Ignored
    ensures Classify("silkworm", ["silk"], "zzz", isReal) == Rejected(NotPossible)
    ensures Classify("silkworm", ["silk"], "silkworm", isReal) == Ignored
  {
    SilkwormSpelling();
    assert "zzz" !in ["silk"];
    assert "silkworms" !in ["silk"];
  }

  /** What holds of the accepted words throughout a round: no word accepted
      twice, and every accepted word is a normalised answer of more than two
      characters, other than the root word, spelled from the root word's
      letters. */
  ghost predicate RoundInvariant(root: string, used: seq<string>) {
    && (forall i, j :: 0 <= i < j < |used| ==> used[i] != used[j])
    && (forall w :: w in used ==> 2 < |w| && w != root && IsNormalized(w) && CanSpell(root, w))
  }

  /** Putting an accepted answer in front of the accepted words keeps the
      round invariant. */
  lemma AcceptingKeepsRoundInvariant(root: string, used: seq<string>, answer: string)
    requires RoundInvariant(root, used)
    requires answer !in used && 2 < |answer| && answer != root
    requires IsNormalized(answer) && CanSpell(root, answer)
    ensures RoundInvariant(root, [answer] + used)
  {
    var used' := [answer] + used;
    forall i, j | 0 <= i < j < |used'| ensures used'[i] != used'[j] {
      assert used'[j] == used[j - 1];
      if 0 < i {
        assert used'[i] == used[i - 1];
      }
    }
  }

  /** The state of the game screen. Every field is one the screen keeps and
      updates in place. */
  class GameSession {
    var usedWords: seq<string>   // accepted words, most recent first
    var rootWord: string
    var newWord: string          // the text field's contents
    var score: int
    var errorTitle: string
    var errorMessage: string
    var showingError: bool

    /** The invariant of a round: one point per accepted word, and the
        accepted words keep the round invariant. */
    ghost predicate Valid()
      reads this`score, this`usedWords, this`rootWord
    {
      score == |usedWords| && RoundInvariant(rootWord, usedWords)
    }

    /** The screen as first created: every field at its declared default. */
    constructor ()
      ensures Valid()
      ensures usedWords == [] && rootWord == "" && newWord == "" && score == 0
      ensures errorTitle == "" && errorMessage == "" && !showingError
    {
      usedWords, rootWord, newWord, score := [], "", "", 0;
      errorTitle, errorMessage, showingError := "", "", false;
    }

    /** Installs a new root word and nothing else. */
    method StartGame(newRoot: string)
      modifies this`rootWord
      ensures rootWord == newRoot
      ensures usedWords == [] && score == 0 ==> Valid()
    {
      rootWord := newRoot;
    }

    /** The "Refresh Word" action: a new root word, no accepted words and a
        score of zero; the typed text and the alert are left as they were. */
    method Refresh(newRoot: string)
      modifies this`rootWord, this`score, this`usedWords
      ensures rootWord == newRoot && score == 0 && usedWords == []
      ensures Valid()
    {
      StartGame(newRoot);
      score := 0;
      usedWords := [];
    }

    /** An answer is original when no accepted word equals it. */
    function IsOriginal(word: string): (r: bool)
      reads this
      ensures r <==> forall i :: 0 <= i < |usedWords| ==> usedWords[i] != word
    {
      !(word in usedWords)
    }

    /** Scans `word` letter by letter, removing from a working copy of the
        root word the first occurrence of each letter, and answers false at the
        first letter that has no occurrence left. The root word itself is only
        read. `matched` is the number of letters the scan consumed. */
    method IsPossible(word: string) returns (ok: bool, ghost matched: nat)
      ensures ok <==> CanSpell(rootWord, word)
      ensures ok ==> matched == |word|
      ensures !ok ==> matched < |word| && CanSpell(rootWord, word[..matched])
                      && !CanSpell(rootWord, word[..matched + 1])
    {
      var tempWord := rootWord;
      for i := 0 to |word|
        invariant multiset(tempWord) + multiset(word[..i]) == multiset(rootWord)
        invariant |tempWord| == |rootWord| - i
      {
        var letter := word[i];
        assert word[..i + 1] == word[..i] + [letter];
        match FirstIndex(tempWord, letter)
        case Some(pos) =>
          tempWord := RemoveAt(tempWord, pos);
        case None =>
          assert multiset(word[..i + 1])[letter] > multiset(rootWord)[letter];
          assert word == word[..i + 1] + word[i + 1..];
          assert multiset(word)[letter] > multiset(rootWord)[letter];
          return false, i;
      }
      assert word[..|word|] == word;
      return true, |word|;
    }

    /** Raises the alert with the given title and message. */
    method WordError(title: string, msg: string)
      modifies this`errorTitle, this`errorMessage, this`showingError
      ensures errorTitle == title && errorMessage == msg && showingError
    {
      errorTitle := title;
      errorMessage := msg;
      showingError := true;
    }

    /** The guards of the submit action, in the order they run: an answer of
        at most two characters or equal to the root word is ignored; then the
        originality, spellability and dictionary checks each name the alert
        raised when they fail. Changes nothing. */
    method CheckAnswer(answer: string, isReal: string -> bool) returns (v: Verdict)
      ensures v == Classify(rootWord, usedWords, answer, isReal)
    {
      if |answer| <= 2 {
        return Ignored;
      }
      if answer == rootWord {
        return Ignored;
      }
      if !IsOriginal(answer) {
        return Rejected(AlreadyUsed);
      }
      var possible;
      ghost var matched;
      possible, matched := IsPossible(answer);
      if !possible {
        return Rejected(NotPossible);
      }
      if !isReal(answer) {
        return Rejected(NotRecognized);
      }
      return Accepted;
    }

    /** The effect of submitting the normalised `answer`, relating the state
        before to the state after: an ignored answer changes nothing; a
        rejected answer changes only the alert fields, to the alert of the
        first check that failed; an accepted answer goes to the front of the
        accepted words, scores one point and clears the text field. The root
        word is the same in both states. */
    twostate predicate Submitted(answer: string, isReal: string -> bool)
      reads this
    {
      && rootWord == old(rootWord)
      && match Classify(rootWord, old(usedWords), answer, isReal)
         case Ignored =>
           && usedWords == old(usedWords) && score == old(score) && newWord == old(newWord)
           && errorTitle == old(errorTitle) && errorMessage == old(errorMessage)
           && showingError == old(showingError)
         case Rejected(e) =>
           && usedWords == old(usedWords) && score == old(score) && newWord == old(newWord)
           && errorTitle == e.Title() && errorMessage == e.Message(rootWord) && showingError
         case Accepted =>
           && usedWords == [answer] + old(usedWords) && score == old(score) + 1 && newWord == ""
           && errorTitle == old(errorTitle) && errorMessage == old(errorMessage)
           && showingError == old(showingError)
    }

    /** Submits an already normalised answer. The invariant is kept when it
        held before. */
    method SubmitAnswer(answer: string, isReal: string -> bool)
      requires IsNormalized(answer)
      modifies this`usedWords, this`score, this`newWord
      modifies this`errorTitle, this`errorMessage, this`showingError
      ensures old(Valid()) ==> Valid()
      ensures Submitted(answer, isReal)
    {
      var verdict := CheckAnswer(answer, isReal);
      match verdict
      case Ignored =>
      case Rejected(e) =>
        WordError(e.Title(), e.Message(rootWord));
      case Accepted =>
        Accept(answer);
    }

    /** Records an accepted answer: it goes to the front of the accepted
        words, the score goes up by one and the text field is cleared. */
    method Accept(answer: string)
      requires answer !in usedWords && 2 < |answer| && answer != rootWord
      requires IsNormalized(answer) && CanSpell(rootWord, answer)
      modifies this`usedWords, this`score, this`newWord
      ensures old(Valid()) ==> Valid()
      ensures usedWords == [answer] + old(usedWords) && score == old(score) + 1 && newWord == ""
    {
      if Valid() {
        AcceptingKeepsRoundInvariant(rootWord, usedWords, answer);
      }
      usedWords := [answer] + usedWords;
      score := score + 1;
      newWord := "";
    }

    /** The submit action: normalises the typed text, then submits it. */
    method AddNewWord(isReal: string -> bool)
      modifies this`usedWords, this`score, this`newWord
      modifies this`errorTitle, this`errorMessage, this`showingError
      ensures old(Valid()) ==> Valid()
      ensures Submitted(Normalize(old(newWord)), isReal)
    {
      var answer := Normalize(newWord);
      SubmitAnswer(answer, isReal);
    }
  }
}
