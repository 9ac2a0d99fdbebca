/** The examples of `test_simplify_sentiment`, proved against the model.
    Every answer is a parameter equal to its literal, and every string fact is
    proved in a lemma of its own: together, facts about literal strings make the
    solver unfold `Lower` and `Contains` without end. */
module SentimentExamples {
  import opened Strings
  import opened Sentiment

  lemma LowersTo(upper: string, lower: string)
    requires
      || (upper == "MORE EXCITED" && lower == "more excited")
      || (upper == "MORE CONCERNED" && lower == "more concerned")
      || (upper == "EQUALLY" && lower == "equally")
    ensures Lower(upper) == lower
  {
    forall i | 0 <= i < |upper| ensures lower[i] == LowerChar(upper[i]) {
    }
    LowerByChars(upper, lower);
  }

  lemma AlreadyLower(s: string)
    requires s == "more excited" || s == "more concerned" || s == "equally" || s == "something else"
    ensures Lower(s) == s
  {
    forall i | 0 <= i < |s| ensures s[i] == LowerChar(s[i]) {
    }
    LowerByChars(s, s);
  }

  lemma ConcernedIsNotExcited(s: string)
    requires s == "more concerned"
    ensures !Contains(s, ExcitedPhrase)
  {
    forall i | 0 <= i && i + 12 <= |s| ensures !OccursAt(s, ExcitedPhrase, i) {
      assert s[i..i + 12][5] == s[i + 5];
      assert i == 0 || i == 1 || i == 2;
    }
    ContainsIffOccurs(s, ExcitedPhrase);
  }

  lemma TooShortFor(s: string, phrase: string)
    requires |s| < |phrase|
    ensures !Contains(s, phrase)
  {
    ContainsIffOccurs(s, phrase);
  }

  lemma OtherHasNoExcited(s: string)
    requires s == "something else"
    ensures !Contains(s, ExcitedPhrase)
  {
    forall i | 0 <= i && i + 12 <= |s| ensures !OccursAt(s, ExcitedPhrase, i) {
      assert s[i..i + 12][0] == s[i];
      assert s[i..i + 12][1] == s[i + 1];
      assert i == 0 || i == 1 || i == 2;
    }
    ContainsIffOccurs(s, ExcitedPhrase);
  }

  lemma OtherHasNoConcerned(s: string)
    requires s == "something else"
    ensures !Contains(s, ConcernedPhrase)
  {
    forall i | 0 <= i && i + 14 <= |s| ensures !OccursAt(s, ConcernedPhrase, i) {
      assert s[i..i + 14][0] == s[i];
    }
    ContainsIffOccurs(s, ConcernedPhrase);
  }

  lemma OtherHasNoNeutral(s: string)
    requires s == "something else"
    ensures !Contains(s, NeutralPhrase)
  {
    forall i | 0 <= i && i + 7 <= |s| ensures !OccursAt(s, NeutralPhrase, i) {
      assert s[i..i + 7][0] == s[i];
      assert s[i..i + 7][1] == s[i + 1];
      assert i == 0 || i == 1 || i == 2 || i == 3 || i == 4 || i == 5 || i == 6 || i == 7;
    }
    ContainsIffOccurs(s, NeutralPhrase);
  }

  /** "more excited", in either case, is excited. */
  lemma ExcitedExamples(upper: string, lower: string)
    requires upper == "MORE EXCITED" && lower == "more excited"
    ensures SimplifySentiment(upper) == "excited"
    ensures SimplifySentiment(lower) == "excited"
  {
    LowersTo(upper, lower);
    AlreadyLower(lower);
    ContainsTrivial(lower);
    ExcitedWhen(lower);
    SentimentIgnoresCase(upper, lower);
  }

  /** "more concerned", in either case, is concerned. */
  lemma ConcernedExamples(upper: string, lower: string)
    requires upper == "MORE CONCERNED" && lower == "more concerned"
    ensures SimplifySentiment(upper) == "concerned"
    ensures SimplifySentiment(lower) == "concerned"
  {
    LowersTo(upper, lower);
    AlreadyLower(lower);
    ContainsTrivial(lower);
    ConcernedIsNotExcited(lower);
    ConcernedWhen(lower);
    SentimentIgnoresCase(upper, lower);
  }

  /** "equally", in either case, is neutral. */
  lemma NeutralExamples(upper: string, lower: string)
    requires upper == "EQUALLY" && lower == "equally"
    ensures SimplifySentiment(upper) == "neutral"
    ensures SimplifySentiment(lower) == "neutral"
  {
    LowersTo(upper, lower);
    AlreadyLower(lower);
    ContainsTrivial(lower);
    TooShortFor(lower, ExcitedPhrase);
    TooShortFor(lower, ConcernedPhrase);
    NeutralWhen(lower);
    SentimentIgnoresCase(upper, lower);
  }

  /** An answer with none of the phrases, and the empty answer, get the empty label. */
  lemma UnmatchedExamples(other: string)
    requires other == "something else"
    ensures SimplifySentiment(other) == ""
    ensures SimplifySentiment("") == ""
  {
    AlreadyLower(other);
    OtherHasNoExcited(other);
    OtherHasNoConcerned(other);
    OtherHasNoNeutral(other);
    UnmatchedWhen(other);
  }
}
