# WordScramble word submission, modelled in Dafny

WordScramble is a small word game. The player gets a random root word and types
words spelled from its letters. Each typed word is normalised and then checked
in a fixed order:

- it must be longer than two characters and differ from the root word, or it is
  silently ignored;
- it must not have been accepted before;
- it must be spellable from the root word's letters;
- the platform spell checker must recognise it.

The first failing check raises an alert. An accepted word goes to the front of
the list, scores a point and clears the text field. "Refresh Word" picks a new
root word and resets the list and the score.

The model has three modules, one per concern of `WordScramble/ContentView.swift`:

- `Spelling`: the string operations the spellability scan uses
  (`firstIndex(of:)`, `remove(at:)`) and its specification, `CanSpell`: the
  guess's letters form a sub-multiset of the root word's letters.
- `Normalization`: `lowercased()` followed by
  `trimmingCharacters(in: .whitespacesAndNewlines)`. Lower-casing covers the
  ASCII letters. The whitespace set is the Unicode one (categories Zs, Zl and Zp,
  U+0009 to U+000D, and U+0085).
- `WordScramble`: the class `GameSession`, holding the view's seven state fields
  and the methods that update them in place. It also holds `Classify`, the pure
  decision an answer leads to, which the methods are proved against.

The spell checker (`isReal`) is a parameter `string -> bool`. The new root word
chosen by `startGame` is a parameter `newRoot`.

Three points of the code shape the model:

- Answers of at most two characters, and the root word itself, raise no alert:
  the code returns silently for both (`ContentView.swift:73-74`), and so does
  the model (`Verdict.Ignored`).
- Nothing in the code keeps the root word non-empty: a word list ending in a
  newline yields an empty last line. So the model accepts any `newRoot`, and
  `Valid()` does not need a non-empty root.
- `startGame` (`ContentView.swift:106-120`) sets only `rootWord`; only the
  "Refresh Word" closure (`ContentView.swift:62-63`) also clears `usedWords`
  and `score`. A second `startGame` after words were accepted (`.onAppear`,
  `ContentView.swift:52`, may run more than once) leaves accepted words that
  may not be spellable from the new root. So `StartGame` promises `Valid()`
  only from an empty round, and the submit action, which the code runs in any
  state, keeps `Valid()` when it held before and is callable without it.

## Model

| member | source | states |
|---|---|---|
| `WordScramble.GameSession.constructor` | WordScramble/ContentView.swift:11-17 | The initial state: every field at its declared default (no words, empty root, empty text, score 0, no alert). The invariant holds. |
| `WordScramble.GameSession.IsPossible` | WordScramble/ContentView.swift:129-143 | The greedy scan deletes the first matching letter from a copy of the root word. It returns true exactly when the guess is a sub-multiset of the root word (`CanSpell`). On failure it has consumed a spellable prefix, and the next letter has no match left. The loop invariant says the copy is the root word minus the consumed prefix, as a multiset, with length `|rootWord| - i`. The root word is only read. |
| `WordScramble.GameSession.IsOriginal` | WordScramble/ContentView.swift:123-125 | True exactly when no accepted word equals the answer. |
| `WordScramble.GameSession.WordError` | WordScramble/ContentView.swift:155-159 | Sets the alert title and message and shows the alert. Nothing else changes. |
| `WordScramble.GameSession.CheckAnswer` | WordScramble/ContentView.swift:73-88 | Runs the guards in source order (length, root word, original, possible, real). Its verdict is exactly `Classify` of the current root word and accepted words. It changes no state. |
| `WordScramble.GameSession.Accept` | WordScramble/ContentView.swift:98-103 | The answer goes to the front of `usedWords`, `score` rises by one and `newWord` becomes empty. The invariant is kept when it held before. |
| `WordScramble.GameSession.SubmitAnswer` | WordScramble/ContentView.swift:72-103 | For a normalised answer: an ignored answer changes nothing. A rejected one changes only the three alert fields, to the first failing check's alert. An accepted one is recorded as in `Accept`. The root word never changes, and `Valid()` is kept when it held before. |
| `WordScramble.GameSession.AddNewWord` | WordScramble/ContentView.swift:70-104 | The submit action: the same effect as `SubmitAnswer` on the normalised text field, with `Valid()` kept when it held before. Callable in any state, as the code's action is. |
| `WordScramble.GameSession.StartGame` | WordScramble/ContentView.swift:113 | Sets the root word to the chosen word. Nothing else changes. With no accepted words and score 0, `Valid()` holds afterwards. |
| `WordScramble.GameSession.Refresh` | WordScramble/ContentView.swift:60-64 | New root word, score 0, no accepted words. `Valid()` holds afterwards whatever the state before; the text field and alert are untouched. |
| `WordScramble.Classify` | WordScramble/ContentView.swift:72-88 | The decision table with the check order. Ignored iff length ≤ 2 or equal to the root. AlreadyUsed iff not ignored and already accepted. NotPossible iff also original but not spellable. NotRecognized iff also spellable but not real. Accepted iff it passes everything, and then its length is at most the root's. |
| `WordScramble.ValidationError.Message` | WordScramble/ContentView.swift:77-86 | The spellability alert's message ends with the root word, as the interpolation at line 82 makes it. The body holds the code's three message texts verbatim. |
| `WordScramble.AlertsIdentifyTheCheck` | WordScramble/ContentView.swift:77-86 | The titles "Word used already", "Word not possible" and "Word not recognized" are pairwise different, and so are the three messages for any root word: the alert names the failed check. Only the spellability message depends on the root word. |
| `WordScramble.AcceptingKeepsRoundInvariant` | WordScramble/ContentView.swift:76-101 | Putting an answer that passed the checks at the front of the accepted words keeps the round invariant: no duplicates, none equal to the root, every word normalised, longer than two and spellable from the root. |
| `WordScramble.ResubmittingIsAlreadyUsed` | WordScramble/ContentView.swift:76-79 | Once an answer is accepted, submitting it again is always refused as already used, whatever the spell checker says. |
| `WordScramble.SilkwormRound` | WordScramble/ContentView.swift:70-104 | A round with root word "silkworm": "silk" is accepted, then refused as used; "silkworms" and "zzz" are not possible; "sw" and "silkworm" are ignored. |
| `WordScramble.SilkwormSpelling` | WordScramble/ContentView.swift:129-143 | "silk" can be spelled from "silkworm"; "silkworms" (one s too many) and "zzz" cannot. |
| `WordScramble.NormalizeExample` | WordScramble/ContentView.swift:71 | `" Silk\n"` normalises to `"silk"`. |
| `WordScramble.TrimmedExample` | WordScramble/ContentView.swift:71 | Trimming `" silk\n"` gives `"silk"`. |
| `Spelling.FirstIndex` | WordScramble/ContentView.swift:135 | `firstIndex(of:)`: none iff the letter is absent. Otherwise an index holding the letter, with no earlier occurrence. |
| `Spelling.RemoveAt` | WordScramble/ContentView.swift:137 | `remove(at:)`: one shorter, the multiset loses exactly that one letter, and the characters before and after keep their order. |
| `Spelling.OccurrencesIsMultiplicity` | WordScramble/ContentView.swift:129-143 | The letter count used to state spellability is the multiset multiplicity. |
| `Spelling.CanSpellIffCountsBounded` | WordScramble/ContentView.swift:129-143 | Spellable iff every character occurs in the guess at most as often as in the root word. |
| `Spelling.CanSpellBoundsLength` | WordScramble/ContentView.swift:129-143 | A spellable guess is no longer than the root word. |
| `Spelling.CanSpellPrefix` | WordScramble/ContentView.swift:138-140 | Prefixes of a spellable guess are spellable, so stopping at the first unmatched letter is sound. |
| `Spelling.CanSpellSelfAndMissingLetter` | WordScramble/ContentView.swift:135-139 | A word is spellable from itself. A guess containing a letter the root lacks is not spellable. |
| `Spelling.CanSpellIgnoresOrder` | WordScramble/ContentView.swift:129-143 | Spellability depends only on the per-letter counts (`Occurrences`) of both words, not their order: words and roots with equal counts give the same answer. |
| `Normalization.LowerChar` | WordScramble/ContentView.swift:71 | The result is never an ASCII capital. Capitals map to their lower-case letter (+32) and every other character is unchanged. |
| `Normalization.Lowercased` | WordScramble/ContentView.swift:71 | Same length, each character lowered by `LowerChar`, and no capital left. |
| `Normalization.TrimStartIndex` | WordScramble/ContentView.swift:71 | Skips only whitespace, and stops at the first non-whitespace character or the end. |
| `Normalization.TrimEndIndex` | WordScramble/ContentView.swift:71 | Drops only whitespace from the back, and stops after the last non-whitespace character or at the lower bound. |
| `Normalization.Trimmed` | WordScramble/ContentView.swift:71 | No longer than the input, no new characters, and no whitespace at either end. |
| `Normalization.TrimmedIsCore` | WordScramble/ContentView.swift:71 | Trimming yields a contiguous piece `s[i..j]`. Everything before `i` and after `j` is whitespace, and the piece starts and ends with non-whitespace. |
| `Normalization.Normalize` | WordScramble/ContentView.swift:71 | The normalised answer is in normal form (no ASCII capital, no whitespace at either end) and no longer than the typed text. |
| `Normalization.NormalizeFixesNormalized` | WordScramble/ContentView.swift:71 | Normal-form strings are exactly the fixed points of normalisation. |
| `Normalization.NormalizeIdempotent` | WordScramble/ContentView.swift:71 | Normalising twice is normalising once. |

## Left out

- The SwiftUI view tree, the animation, the alert and toolbar presentation and the preview (`ContentView.swift:21-67`, `165-169`). They are presentation only. Typing into the text field is modelled as assigning `newWord`.
- `startGame`'s bundle lookup, file read, line split, `randomElement()`, `"helloworld"` fallback and `fatalError` (`ContentView.swift:106-120`). These are I/O and randomness. The chosen word is the parameter `newRoot` of `StartGame` and `Refresh`.
- `isReal`'s `UITextChecker` call (`ContentView.swift:147-152`) is a platform spell checker. It is the parameter `isReal: string -> bool`, assumed deterministic within one call.
- `Normalization.Lowercased`: lowers only ASCII `A`-`Z`. Full Unicode case mapping is library behaviour not modelled.
- Strings are sequences of Unicode scalar values. Swift's `String` counts and compares grapheme clusters with canonical equivalence. So `answer.count`, `==`, `firstIndex(of:)` and `remove(at:)` are modelled per scalar, and trimming sees `"\r\n"` as two characters.
- `score` is an unbounded integer. Swift's `Int` would trap on overflow after 2^63 - 1 accepted words, which the invariant `score == |usedWords|` makes unreachable in practice.
