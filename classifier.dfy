/** The keyword heuristic that turns a finalized utterance into an emotion.
    The text is lower-cased and every keyword is tested for plain substring
    containment; positive keywords are tried first, so they win on overlap,
    and a text that mentions no keyword is neutral. */
module Classifier {

  datatype Emotion = Positive | Negative | Neutral

  const PositiveWords: seq<string> := ["happy", "excited", "like", "awesome", "hello", "beautiful"]
  const NegativeWords: seq<string> := ["sad", "angry", "hate", "upset"]

  // ---------------------------------------------------------------------------
  // Lower-casing

  /** Lower-cases one character; only 'A'..'Z' are mapped. */
  function LowerChar(c: char): (d: char)
    ensures 'A' <= c <= 'Z' ==> 'a' <= d <= 'z' && d as int - c as int == 'a' as int - 'A' as int
    ensures !('A' <= c <= 'Z') ==> d == c
  {
    if 'A' <= c <= 'Z' then (c as int - 'A' as int + 'a' as int) as char else c
  }

  /** String.prototype.toLowerCase, restricted to the ASCII letters. */
  function ToLower(s: string): (r: string)
    ensures |r| == |s|
    ensures forall i :: 0 <= i < |s| ==> r[i] == LowerChar(s[i])
  {
    if s == [] then [] else [LowerChar(s[0])] + ToLower(s[1..])
  }

  /** Lower-casing a lower-cased text changes nothing more. */
  lemma ToLowerIdempotent(s: string)
    ensures ToLower(ToLower(s)) == ToLower(s)
  {
  }

  // ---------------------------------------------------------------------------
  // Substring containment

  /** `word` occurs in `text` starting at position `i`. */
  ghost predicate OccursAt(text: string, word: string, i: int)
  {
    0 <= i && i + |word| <= |text| && text[i..i + |word|] == word
  }

  /** The specification of containment: some position where `word` occurs. */
  ghost predicate Mentions(text: string, word: string)
  {
    exists i :: OccursAt(text, word, i)
  }

  /** String.prototype.includes: tries `word` as a prefix at each position in turn. */
  predicate Contains(text: string, word: string)
    decreases |text|
  {
    |word| <= |text| && (text[..|word|] == word || Contains(text[1..], word))
  }

  lemma {:induction false} ContainsIff(text: string, word: string)
    ensures Contains(text, word) <==> Mentions(text, word)
    decreases |text|
  {
    if Contains(text, word) {
      if text[..|word|] == word {
        assert OccursAt(text, word, 0);
      } else {
        ContainsIff(text[1..], word);
        var i :| OccursAt(text[1..], word, i);
        assert text[i + 1..i + 1 + |word|] == text[1..][i..i + |word|];
        assert OccursAt(text, word, i + 1);
      }
    }
    if Mentions(text, word) {
      var i :| OccursAt(text, word, i);
      if i > 0 {
        assert text[1..][i - 1..i - 1 + |word|] == text[i..i + |word|];
        assert OccursAt(text[1..], word, i - 1);
        ContainsIff(text[1..], word);
      }
    }
  }

  /** Some keyword of `words` occurs in `text` (the specification of `words.some(w => text.includes(w))`). */
  ghost predicate MentionsAny(text: string, words: seq<string>)
  {
    exists k :: 0 <= k < |words| && Mentions(text, words[k])
  }

  /** Array.prototype.some over `includes`, keyword by keyword in order. */
  predicate AnyContained(text: string, words: seq<string>)
  {
    |words| > 0 && (Contains(text, words[0]) || AnyContained(text, words[1..]))
  }

  lemma {:induction false} AnyContainedIff(text: string, words: seq<string>)
    ensures AnyContained(text, words) <==> MentionsAny(text, words)
  {
    if |words| > 0 {
      ContainsIff(text, words[0]);
      AnyContainedIff(text, words[1..]);
      if MentionsAny(text, words) {
        var k :| 0 <= k < |words| && Mentions(text, words[k]);
        if k > 0 {
          assert words[1..][k - 1] == words[k];
        }
      }
      if MentionsAny(text, words[1..]) {
        var k :| 0 <= k < |words[1..]| && Mentions(text, words[1..][k]);
        assert words[k + 1] == words[1..][k];
      }
    }
  }

  // ---------------------------------------------------------------------------
  // Classification

  /** The keyword test of the speech reaction: positive precedence, negative
      only when no positive keyword occurs, neutral otherwise. */
  function Classify(text: string): (e: Emotion)
    ensures e == Positive <==> MentionsAny(ToLower(text), PositiveWords)
    ensures e == Negative <==> !MentionsAny(ToLower(text), PositiveWords) && MentionsAny(ToLower(text), NegativeWords)
    ensures e == Neutral <==> !MentionsAny(ToLower(text), PositiveWords) && !MentionsAny(ToLower(text), NegativeWords)
  {
    var lower := ToLower(text);
    AnyContainedIff(lower, PositiveWords);
    AnyContainedIff(lower, NegativeWords);
    if AnyContained(lower, PositiveWords) then Positive
    else if AnyContained(lower, NegativeWords) then Negative
    else Neutral
  }

  /** Case does not matter: a text and its lower-cased form classify alike. */
  lemma ClassifyIgnoresCase(text: string)
    ensures Classify(ToLower(text)) == Classify(text)
  {
    ToLowerIdempotent(text);
  }

  /** A keyword found, up to case, at position `i` of a text is mentioned by its lower-cased form. */
  lemma MentionedAt(text: string, word: string, i: nat)
    requires i + |word| <= |text|
    requires forall j :: 0 <= j < |word| ==> LowerChar(text[i + j]) == word[j]
    ensures Mentions(ToLower(text), word)
  {
    var lower := ToLower(text);
    assert lower[i..i + |word|] == word;
    assert OccursAt(lower, word, i);
  }

  /** "happy" wins over "sad" in the same utterance. */
  lemma MixedUtteranceIsPositive()
    ensures Classify("I am so happy and sad") == Positive
  {
    MentionedAt("I am so happy and sad", PositiveWords[0], 8);
  }

  /** Substring matching keeps its false positive: "dislike" contains "like". */
  lemma DislikeIsPositive()
    ensures Classify("I dislike this") == Positive
  {
    MentionedAt("I dislike this", PositiveWords[2], 5);
  }

  /** Upper case is folded before matching: "SAD" is negative. */
  lemma ShoutedSadIsNegative()
    ensures Classify("SAD") == Negative
  {
  }
}
