/** The game state of the word-scramble screen and the submission pipeline that
    updates it: normalise the answer, then check originality, feasibility and
    reality in that order, and either record the word or raise an error. */
module WordScramble {
  import opened Wrappers
  import opened Letters
  import opened Normalization

  /** The spell checker the reality check defers to: true when it reports no misspelling. */
  type Dictionary = string -> bool

  /** Which check rejected an answer. The code has no separate reason for an
      empty or a too-short answer. */
  datatype Reason = NotOriginal | NotPossible | NotReal

  datatype Verdict = Accepted | Rejected(reason: Reason)

  /** The view's state. `newWord` is the text field; `showingError` and
      `lastError` are what `wordError` sets (the alert text stands for its reason). */
  datatype GameState = GameState(
    rootWord: string,
    usedWords: seq<string>,
    score: nat,
    newWord: string,
    showingError: bool,
    lastError: Option<Reason>)

  /** The root word `startGame` falls back to. */
  const DefaultRoot: string := "silkworm"

  /** `isOriginal`: the answer is none of the used words and not the root word. */
  predicate IsOriginal(s: GameState, word: string)
    ensures IsOriginal(s, word) <==>
      (forall i :: 0 <= i < |s.usedWords| ==> s.usedWords[i] != word) && word != s.rootWord
  {
    word !in s.usedWords && word != s.rootWord
  }

  /** The reality check: anything shorter than three letters fails whatever the dictionary says. */
  function IsReal(word: string, isWord: Dictionary): (r: bool)
    ensures |word| < 3 ==> !r
    ensures r ==> isWord(word)
    ensures r <==> |word| >= 3 && isWord(word)
  {
    if |word| < 3 then false else isWord(word)
  }

  /** The three checks in the order `addNewWord` runs them; the verdict names the first that fails. */
  function Validate(s: GameState, answer: string, isWord: Dictionary): (v: Verdict)
    ensures v == Rejected(NotOriginal) <==> answer in s.usedWords || answer == s.rootWord
    ensures v == Rejected(NotPossible) <==>
      answer !in s.usedWords && answer != s.rootWord && !(multiset(answer) <= multiset(s.rootWord))
    ensures v == Rejected(NotReal) <==>
      answer !in s.usedWords && answer != s.rootWord && multiset(answer) <= multiset(s.rootWord)
      && (|answer| < 3 || !isWord(answer))
    ensures v == Accepted <==> Acceptable(s, answer, isWord)
  {
    if !IsOriginal(s, answer) then Rejected(NotOriginal)
    else if !Feasible(s.rootWord, answer) then Rejected(NotPossible)
    else if !IsReal(answer, isWord) then Rejected(NotReal)
    else Accepted
  }

  /** What an accepted answer satisfies, stated without the checks' code. */
  ghost predicate Acceptable(s: GameState, answer: string, isWord: Dictionary)
  {
    answer !in s.usedWords && answer != s.rootWord
    && multiset(answer) <= multiset(s.rootWord)
    && |answer| >= 3 && isWord(answer)
  }

  /** `wordError`: raise the alert for `reason`; the game itself is untouched. */
  function WordError(s: GameState, reason: Reason): (r: GameState)
    ensures r.showingError && r.lastError == Some(reason)
    ensures r.(showingError := s.showingError, lastError := s.lastError) == s
  {
    s.(showingError := true, lastError := Some(reason))
  }

  /** `addNewWord` on the current text field. An answer that normalises to the
      empty string changes nothing; a rejected one only raises the error; an
      accepted one is put first in the used words, scores its length and clears
      the text field. */
  function AddNewWord(s: GameState, isWord: Dictionary): (r: GameState)
    ensures r.rootWord == s.rootWord
    ensures var a := Normalize(s.newWord); a == [] ==> r == s
    ensures var a := Normalize(s.newWord); a != [] && !Acceptable(s, a, isWord) ==>
      r.usedWords == s.usedWords && r.score == s.score && r.newWord == s.newWord
      && r.showingError && r.lastError == Some(Validate(s, a, isWord).reason)
    ensures var a := Normalize(s.newWord); a != [] && Acceptable(s, a, isWord) ==>
      r.usedWords == [a] + s.usedWords && r.score == s.score + |a| && r.newWord == []
      && r.showingError == s.showingError && r.lastError == s.lastError
  {
    var answer := Normalize(s.newWord);
    if |answer| == 0 then s
    else
      var v := Validate(s, answer, isWord);
      match v
      case Rejected(reason) => WordError(s, reason)
      case Accepted =>
        s.(usedWords := [answer] + s.usedWords, score := s.score + |answer|, newWord := [])
  }

  /** `startGame` once the word list has been read and split into lines: the
      root is the entry at the randomly chosen index, or the default when the list
      is empty; the used words and the score are reset. */
  function StartGame(s: GameState, allWords: seq<string>, choice: nat): (r: GameState)
    requires allWords != [] ==> choice < |allWords|
    ensures r.rootWord in allWords || (allWords == [] && r.rootWord == DefaultRoot)
    ensures r.usedWords == [] && r.score == 0
    ensures r.newWord == s.newWord && r.showingError == s.showingError && r.lastError == s.lastError
  {
    var root := if allWords == [] then DefaultRoot else allWords[choice];
    s.(rootWord := root, usedWords := [], score := 0)
  }

  /** Sum of the lengths of `words`. */
  function TotalLength(words: seq<string>): nat
  {
    if words == [] then 0 else |words[0]| + TotalLength(words[1..])
  }

  ghost predicate NoDuplicates(words: seq<string>)
  {
    forall i, j :: 0 <= i < j < |words| ==> words[i] != words[j]
  }

  /** What every state reached by playing keeps: the used words are distinct,
      never the root, each an accepted answer, and the score is their total length. */
  ghost predicate Invariant(s: GameState, isWord: Dictionary)
  {
    NoDuplicates(s.usedWords)
    && s.rootWord !in s.usedWords
    && (forall w :: w in s.usedWords ==>
          Feasible(s.rootWord, w) && IsNormal(w) && |w| >= 3 && isWord(w))
    && s.score == TotalLength(s.usedWords)
  }

  /** A fresh game satisfies the invariant, whatever the root. */
  lemma StartGameEstablishes(s: GameState, allWords: seq<string>, choice: nat, isWord: Dictionary)
    requires allWords != [] ==> choice < |allWords|
    ensures Invariant(StartGame(s, allWords, choice), isWord)
  {
  }

  /** Every submission keeps the invariant. */
  lemma AddNewWordPreserves(s: GameState, isWord: Dictionary)
    requires Invariant(s, isWord)
    ensures Invariant(AddNewWord(s, isWord), isWord)
  {
    var answer := Normalize(s.newWord);
    var r := AddNewWord(s, isWord);
    if answer != [] && Acceptable(s, answer, isWord) {
      assert r.usedWords == [answer] + s.usedWords;
      assert r.usedWords[1..] == s.usedWords;
      assert TotalLength(r.usedWords) == |answer| + TotalLength(s.usedWords);
      forall i, j | 0 <= i < j < |r.usedWords|
        ensures r.usedWords[i] != r.usedWords[j]
      {
        assert r.usedWords[j] == s.usedWords[j - 1];
        if i > 0 {
          assert r.usedWords[i] == s.usedWords[i - 1];
        }
      }
      forall w | w in r.usedWords
        ensures Feasible(r.rootWord, w) && IsNormal(w) && |w| >= 3 && isWord(w)
      {
        if w != answer {
          assert w in s.usedWords;
        }
      }
    } else {
      assert r.usedWords == s.usedWords && r.score == s.score && r.rootWord == s.rootWord;
    }
  }

  /** A session: each entry is typed into the text field and submitted. */
  function Play(s: GameState, inputs: seq<string>, isWord: Dictionary): GameState
    decreases |inputs|
  {
    if inputs == [] then s
    else Play(AddNewWord(s.(newWord := inputs[0]), isWord), inputs[1..], isWord)
  }

  /** From a fresh game, any sequence of submissions keeps the invariant. */
  lemma {:induction false} PlayPreserves(s: GameState, inputs: seq<string>, isWord: Dictionary)
    requires Invariant(s, isWord)
    ensures Invariant(Play(s, inputs, isWord), isWord)
    ensures Play(s, inputs, isWord).rootWord == s.rootWord
    decreases |inputs|
  {
    if inputs != [] {
      var t := s.(newWord := inputs[0]);
      AddNewWordPreserves(t, isWord);
      PlayPreserves(AddNewWord(t, isWord), inputs[1..], isWord);
    }
  }

  /** Once an answer is accepted, resubmitting it in any case or with any
      surrounding whitespace is rejected as not original and scores nothing. */
  lemma ResubmissionRejected(s: GameState, again: string, isWord: Dictionary)
    requires Normalize(s.newWord) != [] && Acceptable(s, Normalize(s.newWord), isWord)
    requires Normalize(again) == Normalize(s.newWord)
    ensures var t := AddNewWord(AddNewWord(s, isWord).(newWord := again), isWord);
      t.lastError == Some(NotOriginal) && t.showingError
      && t.usedWords == AddNewWord(s, isWord).usedWords && t.score == AddNewWord(s, isWord).score
  {
  }

  /** An answer shorter than three letters after normalisation is never recorded
      and never scores, whatever the dictionary accepts. */
  lemma ShortAnswerNeverScores(s: GameState, isWord: Dictionary)
    requires |Normalize(s.newWord)| < 3
    ensures AddNewWord(s, isWord).usedWords == s.usedWords
    ensures AddNewWord(s, isWord).score == s.score
  {
  }
}
