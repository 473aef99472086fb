/**
 The query path of the recommender: a blank query answers nothing at once;
 otherwise the neighbour index is asked for the corpus rows closest to the
 query, their career labels are read off, labels that are blank or spell
 "NA" are dropped, and the rest are de-duplicated keeping the closest first.
 */
module Recommend {
  import opened Text
  import opened Dedup
  import opened Corpus

  /** The number of neighbours the index is built to return. */
  const NeighbourCount := 5

  /** The placeholder respondents were asked to write when no job applies. */
  const Sentinel := "NA"

  /** The nearest-neighbour pipeline (term weighting, truncated SVD,
      standardisation and cosine k-nearest-neighbours) seen from outside: a
      query goes in, at most `NeighbourCount` positions of a corpus of `size`
      records come out, closest first. */
  ghost predicate IsNeighbourIndex(nn: string -> seq<nat>, size: nat) {
    forall q :: |nn(q)| <= NeighbourCount && forall k :: 0 <= k < |nn(q)| ==> nn(q)[k] < size
  }

  /** A label survives the filter when it is not blank and its upper-case
      form is not exactly the sentinel. */
  predicate Keep(career: string) {
    Strip(career) != [] && Upper(career) != Sentinel
  }

  /** The filter drops exactly the blank labels and the four letter-case
      spellings of the sentinel; " NA" and other padded spellings pass. */
  lemma KeepCharacterised(career: string)
    ensures Keep(career) <==> !IsBlank(career) && career !in {"NA", "Na", "nA", "na"}
  {
    SentinelSpellings(career);
  }

  /** The list comprehension that drops unusable labels, keeping order. */
  function KeepLabels(labels: seq<string>): (r: seq<string>)
    ensures |r| <= |labels|
    ensures forall x :: x in r <==> x in labels && Keep(x)
  {
    if labels == [] then []
    else (if Keep(labels[0]) then [labels[0]] else []) + KeepLabels(labels[1..])
  }

  /** The filter keeps every occurrence of a passing label and no occurrence
      of any other: it neither merges repeats nor drops a passing one. */
  lemma {:induction false} KeepLabelsCounts(labels: seq<string>)
    ensures forall x :: multiset(KeepLabels(labels))[x] == if Keep(x) then multiset(labels)[x] else 0
    decreases |labels|
  {
    if labels != [] {
      KeepLabelsCounts(labels[1..]);
      assert labels == [labels[0]] + labels[1..];
    }
  }

  /** The filter works element by element: filtering a concatenation is
      concatenating the filtered parts, so the kept labels stay in input
      order. */
  lemma KeepLabelsAppend(a: seq<string>, b: seq<string>)
    ensures KeepLabels(a + b) == KeepLabels(a) + KeepLabels(b)
  {
    KeepLabelsIsFilter(a + b);
    KeepLabelsIsFilter(a);
    KeepLabelsIsFilter(b);
    FilterAppend(Keep, a, b);
  }

  /** `KeepLabels` is the generic filter instantiated with `Keep`. */
  lemma {:induction false} KeepLabelsIsFilter(labels: seq<string>)
    ensures KeepLabels(labels) == Filter(Keep, labels)
    decreases |labels|
  {
    if labels != [] {
      KeepLabelsIsFilter(labels[1..]);
    }
  }

  /** One step of the filter. */
  lemma KeepLabelsStep(labels: seq<string>)
    requires labels != []
    ensures KeepLabels(labels) ==
            if Keep(labels[0]) then [labels[0]] + KeepLabels(labels[1..]) else KeepLabels(labels[1..])
  {
  }

  /** Filtering keeps the relative order of the first occurrences of the
      labels it keeps. */
  lemma {:induction false} KeepLabelsOrder(labels: seq<string>, x: string, y: string)
    requires x in KeepLabels(labels) && y in KeepLabels(labels)
    ensures FirstIndex(KeepLabels(labels), x) < FirstIndex(KeepLabels(labels), y)
            <==> FirstIndex(labels, x) < FirstIndex(labels, y)
    decreases |labels|
  {
    var kept := KeepLabels(labels);
    var rest := labels[1..];
    if labels[0] == x || labels[0] == y {
      assert Keep(labels[0]);
      assert kept[0] == labels[0];
    } else {
      assert x in rest && y in rest;
      assert FirstIndex(labels, x) == FirstIndex(rest, x) + 1;
      assert FirstIndex(labels, y) == FirstIndex(rest, y) + 1;
      KeepLabelsOrder(rest, x, y);
      if Keep(labels[0]) {
        assert kept == [labels[0]] + KeepLabels(rest);
        assert FirstIndex(kept, x) == FirstIndex(KeepLabels(rest), x) + 1;
        assert FirstIndex(kept, y) == FirstIndex(KeepLabels(rest), y) + 1;
      } else {
        assert kept == KeepLabels(rest);
      }
    }
  }

  /** Recommendation assembly: the kept labels, each once, in order of first
      (closest) occurrence among the neighbour labels. */
  function Assemble(labels: seq<string>): (r: seq<string>)
    ensures |r| <= |labels|
    ensures Distinct(r)
    ensures forall x :: x in r <==> x in labels && Keep(x)
    ensures OrderedBy(labels, r)
  {
    var kept := KeepLabels(labels);
    var r := FromKeys(kept);
    assert forall x :: x in r <==> x in kept by {
      forall x | x in kept ensures x in r {
        assert kept[FirstIndex(kept, x)] == x;
      }
    }
    assert OrderedBy(labels, r) by {
      forall a, b | 0 <= a < b < |r|
        ensures FirstIndex(labels, r[a]) < FirstIndex(labels, r[b])
      {
        KeepLabelsOrder(labels, r[a], r[b]);
      }
    }
    r
  }

  /** The contract of `Assemble` determines its result: any distinct list of
      the kept labels in first-occurrence order is `Assemble(labels)`. */
  lemma AssembleCharacterised(labels: seq<string>, r: seq<string>)
    requires Distinct(r)
    requires forall x :: x in r <==> x in labels && Keep(x)
    requires OrderedBy(labels, r)
    ensures r == Assemble(labels)
  {
    var kept := KeepLabels(labels);
    assert OrderedBy(kept, r) by {
      forall a, b | 0 <= a < b < |r|
        ensures FirstIndex(kept, r[a]) < FirstIndex(kept, r[b])
      {
        KeepLabelsOrder(labels, r[a], r[b]);
      }
    }
    assert forall x :: x in r <==> x in kept;
    FromKeysCharacterised(kept, r);
    assert forall x :: x in FromKeys(kept) <==> x in kept by {
      forall x | x in kept ensures x in FromKeys(kept) {
        assert kept[FirstIndex(kept, x)] == x;
      }
    }
  }

  /** A list whose labels all pass the filter is left unchanged by it. */
  lemma {:induction false} KeepLabelsOfKept(labels: seq<string>)
    requires forall k :: 0 <= k < |labels| ==> Keep(labels[k])
    ensures KeepLabels(labels) == labels
    decreases |labels|
  {
    if labels != [] {
      KeepLabelsOfKept(labels[1..]);
      assert labels == [labels[0]] + labels[1..];
    }
  }

  /** Filtering a list without repeats leaves a list without repeats. */
  lemma {:induction false} KeepLabelsDistinct(labels: seq<string>)
    requires Distinct(labels)
    ensures Distinct(KeepLabels(labels))
    decreases |labels|
  {
    if labels != [] {
      var rest := labels[1..];
      assert Distinct(rest);
      KeepLabelsDistinct(rest);
      assert labels[0] !in rest;
    }
  }

  /** Filtering and de-duplicating the recommendations again changes nothing. */
  lemma AssembleIdempotent(labels: seq<string>)
    ensures Assemble(Assemble(labels)) == Assemble(labels)
  {
    var r := Assemble(labels);
    KeepLabelsOfKept(r);
    FromKeysOfDistinct(r);
  }

  /** Without repeated labels among the neighbours, de-duplication has
      nothing left to do: the answer is the filtered neighbour labels. */
  lemma AssembleOfDistinct(labels: seq<string>)
    requires Distinct(labels)
    ensures Assemble(labels) == KeepLabels(labels)
  {
    KeepLabelsDistinct(labels);
    FromKeysOfDistinct(KeepLabels(labels));
  }

  /** `df.iloc[rows][career]`: the career labels at the given corpus rows. */
  function NeighbourLabels(corpus: seq<Record>, rows: seq<nat>): (labels: seq<string>)
    requires forall k :: 0 <= k < |rows| ==> rows[k] < |corpus|
    ensures |labels| == |rows|
    ensures forall k :: 0 <= k < |rows| ==> labels[k] == Careers(corpus)[rows[k]]
  {
    seq(|rows|, k requires 0 <= k < |rows| => corpus[rows[k]].career)
  }

  /** The neighbour labels of a prepared corpus repeat only when the index
      returns a row twice. */
  lemma NeighbourLabelsDistinct(corpus: seq<Record>, rows: seq<nat>)
    requires forall k :: 0 <= k < |rows| ==> rows[k] < |corpus|
    requires Distinct(Careers(corpus)) && Distinct(rows)
    ensures Distinct(NeighbourLabels(corpus, rows))
  {
    var labels := NeighbourLabels(corpus, rows);
    forall i, j | 0 <= i < j < |labels| ensures labels[i] != labels[j] {
      assert Careers(corpus)[rows[i]] == labels[i];
      assert Careers(corpus)[rows[j]] == labels[j];
    }
  }

  /** `recommend_careers`: a query that is blank after stripping answers
      nothing whatever the index would say; otherwise the answer is at most
      `NeighbourCount` distinct labels, none blank and none spelling the
      sentinel, which are exactly the kept labels of the query's neighbours,
      closest first. */
  function RecommendCareers(corpus: seq<Record>, nn: string -> seq<nat>, userInput: string): (r: seq<string>)
    requires IsNeighbourIndex(nn, |corpus|)
    ensures IsBlank(userInput) ==> r == []
    ensures |r| <= NeighbourCount
    ensures Distinct(r)
    ensures forall x :: x in r ==> !IsBlank(x) && Upper(x) != Sentinel
    ensures !IsBlank(userInput) ==>
              var labels := NeighbourLabels(corpus, nn(userInput));
              && (forall x :: x in r <==> x in labels && Keep(x))
              && OrderedBy(labels, r)
  {
    if Strip(userInput) == [] then []
    else Assemble(NeighbourLabels(corpus, nn(userInput)))
  }

  /** On a prepared corpus the index's rows carry distinct labels, so the
      answer is just the filtered neighbour labels in neighbour order. */
  lemma RecommendOnPreparedCorpus(t: Table, nn: string -> seq<nat>, userInput: string)
    requires Prepare(t).Ready?
    requires IsNeighbourIndex(nn, |Prepare(t).records|)
    requires Distinct(nn(userInput))
    requires !IsBlank(userInput)
    ensures RecommendCareers(Prepare(t).records, nn, userInput)
            == KeepLabels(NeighbourLabels(Prepare(t).records, nn(userInput)))
  {
    var corpus := Prepare(t).records;
    NeighbourLabelsDistinct(corpus, nn(userInput));
    AssembleOfDistinct(NeighbourLabels(corpus, nn(userInput)));
  }
}
