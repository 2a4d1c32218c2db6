/** Letter bookkeeping behind the feasibility check: a candidate word is
    possible when its letters form a sub-multiset of the root word's letters. */
module Letters {
  import opened Wrappers

  /** Number of occurrences of `c` in `s`. */
  function Count(s: string, c: char): nat
  {
    if |s| == 0 then 0
    else (if s[0] == c then 1 else 0) + Count(s[1..], c)
  }

  /** The reference meaning of feasibility: no letter is used more often than the root holds it. */
  predicate Feasible(root: string, word: string)
  {
    multiset(word) <= multiset(root)
  }

  /** Swift's `firstIndex(of:)`: the position of the first occurrence of `c`, if any. */
  function FirstIndex(s: string, c: char): (r: Option<nat>)
    ensures r.None? <==> c !in s
    ensures r.Some? ==> r.value < |s| && s[r.value] == c && c !in s[..r.value]
  {
    if |s| == 0 then None
    else if s[0] == c then Some(0)
    else match FirstIndex(s[1..], c)
      case None => None
      case Some(i) =>
        assert s[..i + 1] == [s[0]] + s[1..][..i];
        Some(i + 1)
  }

  /** Swift's `remove(at:)`: drops exactly the letter at position `i`. */
  function RemoveAt(s: string, i: nat): (r: string)
    requires i < |s|
    ensures |r| == |s| - 1
    ensures multiset(r) == multiset(s) - multiset{s[i]}
  {
    assert s == s[..i] + [s[i]] + s[i + 1..];
    s[..i] + s[i + 1..]
  }

  /** `ContentView.isPossible`: walk the candidate, consuming the first matching
      letter of a scratch copy of the root word, and fail at the first letter
      that has no match left. */
  method IsPossible(rootWord: string, word: string) returns (ok: bool)
    ensures ok <==> Feasible(rootWord, word)
  {
    var tempWord := rootWord;
    var k := 0;
    while k < |word|
      invariant k <= |word|
      invariant Consumed(rootWord, word, k, tempWord)
    {
      match FirstIndex(tempWord, word[k]) {
        case Some(pos) =>
          ConsumeStep(rootWord, word, k, tempWord, pos);
          tempWord := RemoveAt(tempWord, pos);
        case None =>
          NoMatchIsInfeasible(rootWord, word, k, tempWord);
          return false;
      }
      k := k + 1;
    }
    assert word[..k] == word;
    return true;
  }

  /** The loop invariant of `IsPossible`: the first `k` letters of `word` fit in
      `root`, and the scratch copy `temp` is the root minus those letters. */
  ghost predicate Consumed(root: string, word: string, k: nat, temp: string)
    requires k <= |word|
  {
    multiset(word[..k]) <= multiset(root) && multiset(temp) == multiset(root) - multiset(word[..k])
  }

  /** Consuming a matching letter of the copy keeps the invariant one letter further on. */
  lemma ConsumeStep(root: string, word: string, k: nat, temp: string, pos: nat)
    requires k < |word| && pos < |temp| && temp[pos] == word[k]
    requires Consumed(root, word, k, temp)
    ensures Consumed(root, word, k + 1, RemoveAt(temp, pos))
  {
    assert word[..k + 1] == word[..k] + [word[k]];
    assert word[k] in multiset(temp);
  }

  /** A letter with no copy left makes the whole word infeasible. */
  lemma NoMatchIsInfeasible(root: string, word: string, k: nat, temp: string)
    requires k < |word| && word[k] !in temp
    requires Consumed(root, word, k, temp)
    ensures !Feasible(root, word)
  {
    var letter := word[k];
    assert multiset(temp)[letter] == 0;
    assert multiset(word[..k])[letter] == multiset(root)[letter];
    assert word[..k + 1] == word[..k] + [letter];
    assert multiset(word[..k + 1])[letter] > multiset(root)[letter];
    PrefixMultisetBelow(word, k + 1);
  }

  /** A prefix never uses a letter more often than the whole word. */
  lemma PrefixMultisetBelow(word: string, k: nat)
    requires k <= |word|
    ensures multiset(word[..k]) <= multiset(word)
  {
    assert word == word[..k] + word[k..];
  }

  /** `Count` is the multiplicity the multiset view of a word assigns to a letter. */
  lemma {:induction false} CountIsMultiplicity(s: string, c: char)
    ensures Count(s, c) == multiset(s)[c]
  {
    if |s| > 0 {
      assert s == [s[0]] + s[1..];
      CountIsMultiplicity(s[1..], c);
    }
  }

  /** Feasibility stated letter by letter: every letter occurs in the word at most
      as often as it occurs in the root. */
  lemma FeasibleIffCounts(root: string, word: string)
    ensures Feasible(root, word) <==> forall c :: Count(word, c) <= Count(root, c)
  {
    if Feasible(root, word) {
      forall c
        ensures Count(word, c) <= Count(root, c)
      {
        CountIsMultiplicity(word, c);
        CountIsMultiplicity(root, c);
        assert multiset(word)[c] <= multiset(root)[c];
      }
    } else {
      var c :| multiset(word)[c] > multiset(root)[c];
      CountIsMultiplicity(word, c);
      CountIsMultiplicity(root, c);
    }
  }

  /** A feasible word is never longer than its root, and the empty word is always feasible. */
  lemma {:induction false} FeasibleIsNoLonger(root: string, word: string)
    ensures Feasible(root, [])
    ensures Feasible(root, word) ==> |word| <= |root|
  {
    if Feasible(root, word) && |word| > 0 {
      var c := word[0];
      assert word == [c] + word[1..];
      assert c in multiset(root);
      var i := FirstIndex(root, c).value;
      var rest := RemoveAt(root, i);
      assert multiset(word[1..]) <= multiset(rest);
      FeasibleIsNoLonger(rest, word[1..]);
    }
  }
}
