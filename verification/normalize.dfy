/** The answer normalisation `lowercased().trimmingCharacters(in: .whitespacesAndNewlines)`.
    Lowercasing is modelled on ASCII letters only; trimming uses the full
    whitespace-and-newline character set of Foundation's `CharacterSet`. */
module Normalization {

  /** Members of `CharacterSet.whitespacesAndNewlines`: the Unicode space,
      line and paragraph separators, the controls U+0009 to U+000D, and U+0085. */
  predicate IsSpace(c: char)
  {
    c == ' ' || ('\t' <= c <= '\r') || c == '\U{85}' || c == '\U{A0}' || c == '\U{1680}'
    || ('\U{2000}' <= c <= '\U{200A}') || c == '\U{2028}' || c == '\U{2029}'
    || c == '\U{202F}' || c == '\U{205F}' || c == '\U{3000}'
  }

  predicate IsUpper(c: char)
  {
    'A' <= c <= 'Z'
  }

  function LowerChar(c: char): char
  {
    if IsUpper(c) then (c as int + 32) as char else c
  }

  /** Every character lowered, nothing else changed. */
  function Lower(s: string): (r: string)
    ensures |r| == |s|
    ensures forall i :: 0 <= i < |s| ==> r[i] == LowerChar(s[i])
  {
    seq(|s|, i requires 0 <= i < |s| => LowerChar(s[i]))
  }

  /** Scanning forward from `i`: the first position that is not whitespace, or `|s|`. */
  function SkipForward(s: string, i: nat): (k: nat)
    requires i <= |s|
    ensures i <= k <= |s|
    ensures forall j :: i <= j < k ==> IsSpace(s[j])
    ensures k < |s| ==> !IsSpace(s[k])
    decreases |s| - i
  {
    if i < |s| && IsSpace(s[i]) then SkipForward(s, i + 1) else i
  }

  /** Scanning backward from `j` down to `a`: the end of the last character that
      is not whitespace, or `a`. */
  function SkipBackward(s: string, a: nat, j: nat): (k: nat)
    requires a <= j <= |s|
    ensures a <= k <= j
    ensures forall m :: k <= m < j ==> IsSpace(s[m])
    ensures k > a ==> !IsSpace(s[k - 1])
    decreases j
  {
    if j > a && IsSpace(s[j - 1]) then SkipBackward(s, a, j - 1) else j
  }

  /** Where the trimmed text starts. */
  function TrimStart(s: string): nat
  {
    SkipForward(s, 0)
  }

  /** Where the trimmed text ends. */
  function TrimEnd(s: string): nat
  {
    SkipBackward(s, TrimStart(s), |s|)
  }

  /** Whitespace trimmed from both ends: a slice of `s` outside of which there is
      only whitespace and which neither starts nor ends with whitespace. */
  function Trim(s: string): (r: string)
    ensures TrimStart(s) <= TrimEnd(s) <= |s| && r == s[TrimStart(s)..TrimEnd(s)]
    ensures forall i :: 0 <= i < TrimStart(s) ==> IsSpace(s[i])
    ensures forall i :: TrimEnd(s) <= i < |s| ==> IsSpace(s[i])
    ensures r != [] ==> !IsSpace(r[0]) && !IsSpace(r[|r| - 1])
    ensures r == [] <==> forall i :: 0 <= i < |s| ==> IsSpace(s[i])
  {
    s[TrimStart(s)..TrimEnd(s)]
  }

  /** A word as the game stores it: no ASCII capitals and no surrounding whitespace. */
  predicate IsNormal(w: string)
  {
    (forall i :: 0 <= i < |w| ==> !IsUpper(w[i]))
    && (w != [] ==> !IsSpace(w[0]) && !IsSpace(w[|w| - 1]))
  }

  /** The answer as `addNewWord` sees it: lowercased, then trimmed. It has no
      capitals, no surrounding whitespace, and is no longer than the input. */
  function Normalize(s: string): (r: string)
    ensures IsNormal(r)
    ensures |r| <= |s|
  {
    Trim(Lower(s))
  }

  /** The normalised answer is empty exactly when the input is all whitespace. */
  lemma NormalizeEmptyIff(s: string)
    ensures Normalize(s) == [] <==> forall i :: 0 <= i < |s| ==> IsSpace(s[i])
  {
  }

  /** Normalising an already normal word changes nothing. */
  lemma NormalIsFixed(w: string)
    requires IsNormal(w)
    ensures Normalize(w) == w
  {
  }

  /** Normalisation is idempotent: a second pass changes nothing, so two answers
      that differ only in case or surrounding whitespace normalise alike. */
  lemma NormalizeIdempotent(s: string)
    ensures Normalize(Normalize(s)) == Normalize(s)
  {
    NormalIsFixed(Normalize(s));
  }
}
