/**
 The button handler of the desktop front end, without its widgets: the
 interest and skill picked by the user are joined into one query, a blank
 query is refused with an error message, and otherwise the recommender's
 answer is shown, or a notice when it is empty.
 */
module Interface {
  import opened Text
  import opened Dedup
  import opened Corpus
  import opened Recommend

  const SelectionErrorMessage := "Please select your interests and skills!"
  const NoRecommendationsMessage := "No suitable career recommendations found."

  /** What the handler puts on screen. */
  datatype Display =
    | SelectionError(message: string)
    | NoRecommendations(message: string)
    | Recommendations(careers: seq<string>)

  /** The query the front end builds: interest and skill joined by a space,
      then stripped. It is the infix of `interest + " " + skill` left once
      the whitespace around it is cut off; it is empty exactly when both
      selections are blank, and otherwise neither starts nor ends with
      whitespace. */
  function ComposeInput(interest: string, skill: string): (q: string)
    ensures var joined := interest + " " + skill;
            var lo := LeadingSpaces(joined);
            && lo + |q| <= |joined| && q == joined[lo..lo + |q|]
            && (forall k :: 0 <= k < lo ==> IsSpace(joined[k]))
            && (forall k :: lo + |q| <= k < |joined| ==> IsSpace(joined[k]))
    ensures q == [] <==> IsBlank(interest) && IsBlank(skill)
    ensures q != [] ==> !IsSpace(q[0]) && !IsSpace(q[|q| - 1])
  {
    BlankJoin(interest, skill);
    Strip(interest + " " + skill)
  }

  /** Two non-empty selections without surrounding whitespace are joined by
      exactly one space. */
  lemma ComposeStripped(interest: string, skill: string)
    requires interest != [] && Strip(interest) == interest
    requires skill != [] && Strip(skill) == skill
    ensures ComposeInput(interest, skill) == interest + " " + skill
  {
    var joined := interest + " " + skill;
    assert joined[0] == interest[0];
    assert joined[|joined| - 1] == skill[|skill| - 1];
    StripOfStripped(joined);
  }

  /** With a blank interest the query is the stripped skill. */
  lemma ComposeBlankInterest(interest: string, skill: string)
    requires IsBlank(interest)
    ensures ComposeInput(interest, skill) == Strip(skill)
  {
    var prefix := interest + " ";
    assert IsBlank(prefix) by {
      assert forall i :: 0 <= i < |interest| ==> prefix[i] == interest[i];
    }
    StripBlankPrefix(prefix, skill);
  }

  /** With a blank skill the query is the stripped interest. */
  lemma ComposeBlankSkill(interest: string, skill: string)
    requires IsBlank(skill)
    ensures ComposeInput(interest, skill) == Strip(interest)
  {
    var suffix := " " + skill;
    assert IsBlank(suffix) by {
      assert forall i :: 0 <= i < |skill| ==> suffix[i + 1] == skill[i];
    }
    assert interest + " " + skill == interest + suffix;
    StripBlankSuffix(interest, suffix);
  }

  /** A query built by the front end is never blank once it is non-empty, so
      the recommender's own blank-query guard only fires for queries that do
      not come from the front end. */
  lemma ComposedQueryPassesGuard(interest: string, skill: string)
    requires !(IsBlank(interest) && IsBlank(skill))
    ensures !IsBlank(ComposeInput(interest, skill))
    ensures Strip(ComposeInput(interest, skill)) == ComposeInput(interest, skill)
  {
    var q := ComposeInput(interest, skill);
    assert !IsSpace(q[0]);
    StripOfStripped(q);
  }

  /** `get_recommendation`: refuse a selection that is blank on both sides;
      otherwise show the recommender's answer for the composed query, or the
      notice when that answer is empty. */
  function GetRecommendation(corpus: seq<Record>, nn: string -> seq<nat>, interest: string, skill: string): (d: Display)
    requires IsNeighbourIndex(nn, |corpus|)
    ensures d.SelectionError? <==> IsBlank(interest) && IsBlank(skill)
    ensures d.SelectionError? ==> d.message == SelectionErrorMessage
    ensures d.NoRecommendations? ==> d.message == NoRecommendationsMessage
    ensures !d.SelectionError? ==>
              var labels := NeighbourLabels(corpus, nn(ComposeInput(interest, skill)));
              && (d.NoRecommendations? <==> forall x :: x in labels ==> !Keep(x))
              && (d.Recommendations? ==>
                    && 0 < |d.careers| <= NeighbourCount
                    && Distinct(d.careers)
                    && (forall x :: x in d.careers <==> x in labels && Keep(x))
                    && OrderedBy(labels, d.careers))
  {
    var q := ComposeInput(interest, skill);
    if q == [] then
      SelectionError(SelectionErrorMessage)
    else
      ComposedQueryPassesGuard(interest, skill);
      var careers := RecommendCareers(corpus, nn, q);
      if careers == [] then NoRecommendations(NoRecommendationsMessage)
      else Recommendations(careers)
  }
}
