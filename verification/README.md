# WordScramble game logic in Dafny

A model of the game logic of the WordScramble screen (`ContentView`). The
player is shown a root word and types answers. Each answer is lowercased and
trimmed, then checked in a fixed order:

1. originality: not used already and not the root word itself;
2. feasibility: its letters form a sub-multiset of the root word's letters;
3. reality: at least three letters long and accepted by the spell checker.

An accepted answer goes to the front of the used words, its length is added to
the score, and the text field is cleared. A rejected answer raises the error
alert and leaves the game untouched. `startGame` picks a root word and resets
the used words and the score.

Files:

- `wrappers.dfy`: `Option`.
- `letters.dfy` (module `Letters`): letter counts, `firstIndex(of:)`,
  `remove(at:)`, the feasibility loop `IsPossible` and its specification
  `Feasible` (multiset inclusion).
- `normalize.dfy` (module `Normalization`): the answer normalisation.
- `game.dfy` (module `WordScramble`): `GameState`, the three checks,
  `addNewWord`, `startGame`, the state invariant and whole sessions.

The functional model of `addNewWord` checks feasibility through the predicate
`Feasible` (multiset inclusion). The method `IsPossible`, which follows the
source's copy-and-remove loop, is proved to compute exactly that predicate.

The spell checker is the parameter `isWord: string -> bool`. It is true when
`UITextChecker` reports no misspelled range for the word in English.

Three behaviours of the code worth stating explicitly:

- An answer that is empty after normalisation is not an error. `addNewWord`
  returns without touching anything, the error flag included.
- There is no separate "too short" reason. A word of one or two letters fails
  the reality check and gets the same error as a misspelled word.
- `startGame` terminates the process when the word list cannot be read. It
  does not return an error.

## Model

| member | source | states |
|---|---|---|
| Letters.IsPossible | WordScramble/ContentView.swift:139-151 | The copy-and-remove loop returns true exactly when the answer's letters form a sub-multiset of the root's. The loop invariant is that the copy equals the root minus the letters consumed so far. |
| Letters.FeasibleIffCounts | WordScramble/ContentView.swift:139-151 | Feasibility holds exactly when every letter occurs in the answer at most as often as in the root. |
| Letters.FeasibleIsNoLonger | WordScramble/ContentView.swift:139-151 | The empty answer is always feasible. A feasible answer is never longer than the root. |
| Letters.CountIsMultiplicity | WordScramble/ContentView.swift:142-144 | Counting a letter's occurrences gives its multiplicity in the word's multiset. This lets the loop's multiset invariant be read letter by letter. |
| Letters.NoMatchIsInfeasible | WordScramble/ContentView.swift:143-147 | Returning false at the first letter with no copy left is correct: the whole answer is then infeasible. |
| Letters.FirstIndex | WordScramble/ContentView.swift:143 | Returns nothing exactly when the letter is absent. Otherwise it returns a position that holds the letter, with no occurrence before it. |
| Letters.RemoveAt | WordScramble/ContentView.swift:144 | Removing at a position shortens the word by one. The multiset loses exactly one copy of the removed letter. |
| Normalization.Normalize | WordScramble/ContentView.swift:85-86 | The normalised answer has no ASCII capitals and no surrounding whitespace, and is no longer than the input. |
| Normalization.NormalizeEmptyIff | WordScramble/ContentView.swift:86-91 | The normalised answer is empty exactly when the typed text is all whitespace, which is when `addNewWord` returns early. |
| Normalization.Trim | WordScramble/ContentView.swift:86 | Trimming yields a contiguous slice with only whitespace outside it and no whitespace at either end. It is empty exactly when the input is all whitespace. |
| Normalization.SkipForward | WordScramble/ContentView.swift:86 | The forward scan stops at the first character that is not whitespace, having passed only whitespace. |
| Normalization.SkipBackward | WordScramble/ContentView.swift:86 | The backward scan stops just after the last character that is not whitespace, having passed only whitespace. |
| Normalization.NormalizeIdempotent | WordScramble/ContentView.swift:85-86 | Normalising twice is the same as normalising once. |
| WordScramble.IsOriginal | WordScramble/ContentView.swift:135-137 | An answer is original exactly when it differs from every used word and from the root word. `Validate` and `ResubmissionRejected` state what this means for a submission. |
| WordScramble.IsReal | WordScramble/ContentView.swift:153-162 | A word shorter than three characters is never real, whatever the dictionary says. A word of three or more characters is real exactly when the dictionary accepts it. |
| WordScramble.Validate | WordScramble/ContentView.swift:93-106 | The verdict names the first failing check in the order originality, feasibility, reality. Each reason is stated exactly: "not original" iff the answer is used or equals the root. The answer is accepted iff it passes all three checks. |
| WordScramble.WordError | WordScramble/ContentView.swift:164-168 | Raises the error flag with the given reason and changes nothing else. |
| WordScramble.AddNewWord | WordScramble/ContentView.swift:84-110 | An empty normalised answer changes nothing. A rejected answer leaves the used words, score, text and root alone, raises the error and reports the first failing check. An accepted answer goes to the front of the used words, adds its length to the score and clears the text field. |
| WordScramble.StartGame | WordScramble/ContentView.swift:112-125 | The new root is an entry of the word list, or "silkworm" when the list is empty. The used words are empty and the score is zero. |
| WordScramble.StartGameEstablishes | WordScramble/ContentView.swift:121-125 | A freshly started game satisfies the state invariant. |
| WordScramble.AddNewWordPreserves | WordScramble/ContentView.swift:93-109 | Every submission preserves the state invariant. The used words are distinct and never the root. Each used word is feasible, normalised, at least three letters long and accepted by the dictionary. The score equals the total length of the used words. |
| WordScramble.PlayPreserves | WordScramble/ContentView.swift:84-110 | Any sequence of typed-and-submitted answers preserves the invariant and never changes the root word. |
| WordScramble.ResubmissionRejected | WordScramble/ContentView.swift:86-96 | After an answer is accepted, any answer that normalises to the same word is rejected as not original and scores nothing. So answers differing only in ASCII case or surrounding whitespace count as duplicates. |
| WordScramble.ShortAnswerNeverScores | WordScramble/ContentView.swift:103-108 | An answer shorter than three letters after normalisation is never recorded and never scores. |

## Left out

- The SwiftUI view: `body`, the list, the alert, the navigation bar and the `print` calls on tap. This is presentation only.
- `renderOffset` and `renderColor`: floating-point geometry and hue used only for display.
- The spell checker itself (`UITextChecker.rangeOfMisspelledWord`). It is a platform service, modelled by the `isWord` parameter.
- Loading `start.txt` from the bundle, splitting it into lines and `randomElement`. `StartGame` takes the list of lines and the chosen index as parameters. The `fatalError` when the file cannot be read terminates the process and is not modelled.
- The alert title and message strings. The model records the failing check as a tagged reason instead. In the code the feasibility failure is titled "Word not recognized" and the reality failure "Word not possible". The titles look swapped relative to the messages' meaning.
- Normalization.Lower: lowercasing covers ASCII letters only. Swift's `lowercased()` applies full Unicode case mapping, which is library behaviour. Trimming does use the whole whitespace-and-newline set.
- Characters are Unicode scalar values. Swift's `Character` is a grapheme cluster, so `count`, iteration and `firstIndex(of:)` on combining sequences are not modelled.
- String equality is equality of scalar sequences. Swift's `String ==` uses canonical equivalence, and it is behind `usedWords.contains(word)` and `word == rootWord`. So a precomposed and a decomposed spelling of the same non-ASCII word can get different verdicts. For the root "café", the code rejects the decomposed answer as not original, while the model rejects it as not possible.
- StartGame: the word list is a free parameter, so the model admits an empty list and its "silkworm" fallback. In the code the list comes from `components(separatedBy: "\n")`, which never returns an empty array, so the fallback is unreachable. A `start.txt` ending in a newline yields a trailing empty line, so the root word can be the empty string. No answer can then be accepted, because no non-empty answer fits in it.
- `score` is unbounded. Swift's 64-bit `Int` cannot overflow from word lengths in practice.
