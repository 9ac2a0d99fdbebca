/** `simplify_sentiment`: collapses a free-text answer about AI into one of three
    attitudes, or the empty string when none is recognised. */
module Sentiment {
  import opened Strings

  const ExcitedPhrase: string := "more excited"
  const ConcernedPhrase: string := "more concerned"
  const NeutralPhrase: string := "equally"

  /** The four labels the classifier can produce. */
  predicate IsLabel(s: string) {
    s == "excited" || s == "concerned" || s == "neutral" || s == ""
  }

  /** First match wins, in the order excited, concerned, neutral, all looked for in
      the lower-cased answer. Total: every string gets a label. */
  function SimplifySentiment(value: string): (r: string)
    ensures IsLabel(r)
    ensures value == "" ==> r == ""
  {
    var v := Lower(value);
    if Contains(v, ExcitedPhrase) then "excited"
    else if Contains(v, ConcernedPhrase) then "concerned"
    else if Contains(v, NeutralPhrase) then "neutral"
    else ""
  }

  /** The label stated through occurrences of the three phrases in the lower-cased
      answer: each label is chosen exactly when its phrase occurs and no phrase
      looked for earlier does; the empty label means no phrase occurs at all. */
  lemma SentimentByOccurrence(value: string)
    ensures var v := Lower(value);
      && (SimplifySentiment(value) == "excited" <==> Occurs(v, ExcitedPhrase))
      && (SimplifySentiment(value) == "concerned" <==>
            !Occurs(v, ExcitedPhrase) && Occurs(v, ConcernedPhrase))
      && (SimplifySentiment(value) == "neutral" <==>
            !Occurs(v, ExcitedPhrase) && !Occurs(v, ConcernedPhrase)
            && Occurs(v, NeutralPhrase))
      && (SimplifySentiment(value) == "" <==>
            !Occurs(v, ExcitedPhrase) && !Occurs(v, ConcernedPhrase)
            && !Occurs(v, NeutralPhrase))
  {
    var v := Lower(value);
    ContainsIffOccurs(v, ExcitedPhrase);
    ContainsIffOccurs(v, ConcernedPhrase);
    ContainsIffOccurs(v, NeutralPhrase);
  }

  /** Case does not matter: answers that lower-case alike get the same label, and
      in particular an answer and its lower-cased form do. */
  lemma SentimentIgnoresCase(a: string, b: string)
    requires Lower(a) == Lower(b)
    ensures SimplifySentiment(a) == SimplifySentiment(b)
    ensures SimplifySentiment(a) == SimplifySentiment(Lower(a))
  {
  }

  /** A phrase found anywhere in the answer decides the label, whatever surrounds it. */
  lemma ExcitedAnywhere(prefix: string, suffix: string)
    ensures SimplifySentiment(prefix + "more excited" + suffix) == "excited"
  {
    var s := prefix + "more excited" + suffix;
    var v := Lower(s);
    assert v[|prefix|..|prefix| + 12] == ExcitedPhrase;
    assert OccursAt(v, ExcitedPhrase, |prefix|);
    ContainsIffOccurs(v, ExcitedPhrase);
  }

  /** First match wins: an answer holding "more excited" is excited, whatever else it holds. */
  lemma ExcitedWhen(value: string)
    ensures Contains(Lower(value), ExcitedPhrase) ==> SimplifySentiment(value) == "excited"
  {
  }

  /** "more concerned" decides only when "more excited" is absent. */
  lemma ConcernedWhen(value: string)
    ensures !Contains(Lower(value), ExcitedPhrase) && Contains(Lower(value), ConcernedPhrase) ==>
      SimplifySentiment(value) == "concerned"
  {
  }

  /** "equally" decides only when both earlier phrases are absent. */
  lemma NeutralWhen(value: string)
    ensures (!Contains(Lower(value), ExcitedPhrase) && !Contains(Lower(value), ConcernedPhrase)
             && Contains(Lower(value), NeutralPhrase)) ==> SimplifySentiment(value) == "neutral"
  {
  }

  /** Without any phrase the label is empty. */
  lemma UnmatchedWhen(value: string)
    ensures (!Contains(Lower(value), ExcitedPhrase) && !Contains(Lower(value), ConcernedPhrase)
             && !Contains(Lower(value), NeutralPhrase)) ==> SimplifySentiment(value) == ""
  {
  }
}
