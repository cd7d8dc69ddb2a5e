/** `overall_sentiment_by_topic`: sentence-level sentiment scores grouped by
    topic group, each group summarised by its mean score, a label read off
    the mean, and how many of its scores are positive, negative and zero. */
module SentenceScoring {
  import opened Tables

  /** A scored sentence: its topic group (`None` when the cell is empty, and
      then the group-by drops the row) and its sentiment score. */
  datatype ScoredRow = ScoredRow(topicGroup: Option<string>, score: real)

  /** The summary of one topic group. */
  datatype TopicScore = TopicScore(
    overallScore: real, sentimentLabel: string,
    positiveCount: nat, negativeCount: nat, neutralCount: nat, totalSentences: nat)

  /** The label thresholds on the mean score. */
  const PositiveThreshold: real := 0.05
  const NegativeThreshold: real := -0.05

  // ---------------------------------------------------------------------
  // Arithmetic on a group's scores

  function Sum(scores: seq<real>): real
  {
    if |scores| == 0 then 0.0 else scores[0] + Sum(scores[1..])
  }

  /** `Series.mean`: the value that, times the number of scores, is their sum. */
  function Mean(scores: seq<real>): (m: real)
    requires |scores| > 0
    ensures m * (|scores| as real) == Sum(scores)
  {
    Sum(scores) / (|scores| as real)
  }

  /** How many scores are above zero, below zero, and equal to zero. */
  function CountPositive(scores: seq<real>): (n: nat)
    ensures n <= |scores|
    ensures n == 0 <==> forall i :: 0 <= i < |scores| ==> !(scores[i] > 0.0)
    ensures n == |scores| <==> forall i :: 0 <= i < |scores| ==> scores[i] > 0.0
  {
    if |scores| == 0 then 0 else (if scores[0] > 0.0 then 1 else 0) + CountPositive(scores[1..])
  }

  function CountNegative(scores: seq<real>): (n: nat)
    ensures n <= |scores|
    ensures n == 0 <==> forall i :: 0 <= i < |scores| ==> !(scores[i] < 0.0)
    ensures n == |scores| <==> forall i :: 0 <= i < |scores| ==> scores[i] < 0.0
  {
    if |scores| == 0 then 0 else (if scores[0] < 0.0 then 1 else 0) + CountNegative(scores[1..])
  }

  function CountZero(scores: seq<real>): (n: nat)
    ensures n <= |scores|
    ensures n == 0 <==> forall i :: 0 <= i < |scores| ==> !(scores[i] == 0.0)
    ensures n == |scores| <==> forall i :: 0 <= i < |scores| ==> scores[i] == 0.0
  {
    if |scores| == 0 then 0 else (if scores[0] == 0.0 then 1 else 0) + CountZero(scores[1..])
  }

  /** The label of a mean score: strictly above 0.05 is "Positive", strictly
      below -0.05 is "Negative", and everything in between, both thresholds
      included, is "Neutral". */
  function LabelOf(mean: real): (l: string)
    ensures l == "Positive" <==> mean > PositiveThreshold
    ensures l == "Negative" <==> mean < NegativeThreshold
    ensures l == "Neutral" <==> NegativeThreshold <= mean <= PositiveThreshold
  {
    if mean > PositiveThreshold then "Positive"
    else if mean < NegativeThreshold then "Negative"
    else "Neutral"
  }

  /** The summary of one group's scores. */
  function TopicScoreOf(scores: seq<real>): (e: TopicScore)
    requires |scores| > 0
    ensures e.totalSentences == |scores|
    ensures e.positiveCount == CountPositive(scores)
    ensures e.negativeCount == CountNegative(scores)
    ensures e.neutralCount == CountZero(scores)
    ensures e.positiveCount + e.negativeCount + e.neutralCount == e.totalSentences
    ensures e.overallScore == Mean(scores)
    ensures e.sentimentLabel == "Positive" <==> e.overallScore > PositiveThreshold
    ensures e.sentimentLabel == "Negative" <==> e.overallScore < NegativeThreshold
    ensures e.sentimentLabel == "Neutral" <==> NegativeThreshold <= e.overallScore <= PositiveThreshold
  {
    SignCountsPartition(scores);
    var mean := Mean(scores);
    TopicScore(mean, LabelOf(mean), CountPositive(scores), CountNegative(scores), CountZero(scores), |scores|)
  }

  // ---------------------------------------------------------------------
  // Grouping

  /** The scores of the rows of group `t`, in order. */
  function ScoresOf(rows: seq<ScoredRow>, t: string): (s: seq<real>)
    ensures |s| <= |rows|
    ensures |s| > 0 <==> exists i :: 0 <= i < |rows| && rows[i].topicGroup == Some(t)
  {
    if |rows| == 0 then []
    else
      var rest := ScoresOf(rows[1..], t);
      assert forall i :: 0 < i < |rows| ==> rows[i] == rows[1..][i - 1];
      (if rows[0].topicGroup == Some(t) then [rows[0].score] else []) + rest
  }

  /** The sign of a score: 1 above zero, -1 below zero, 0 at zero. */
  function SignOf(x: real): (g: int)
    ensures g == 1 <==> x > 0.0
    ensures g == -1 <==> x < 0.0
    ensures g == 0 <==> x == 0.0
  {
    if x > 0.0 then 1 else if x < 0.0 then -1 else 0
  }

  /** How many rows belong to group `t`. */
  function RowsIn(rows: seq<ScoredRow>, t: string): nat
  {
    if |rows| == 0 then 0
    else (if rows[0].topicGroup == Some(t) then 1 else 0) + RowsIn(rows[1..], t)
  }

  /** How many rows of group `t` have a score of sign `g`. */
  function RowsWithSign(rows: seq<ScoredRow>, t: string, g: int): nat
  {
    if |rows| == 0 then 0
    else
      var here := if rows[0].topicGroup == Some(t) && SignOf(rows[0].score) == g then 1 else 0;
      here + RowsWithSign(rows[1..], t, g)
  }

  /** The sum of the scores of the rows of group `t`. */
  function SumIn(rows: seq<ScoredRow>, t: string): real
  {
    if |rows| == 0 then 0.0
    else (if rows[0].topicGroup == Some(t) then rows[0].score else 0.0) + SumIn(rows[1..], t)
  }

  /** The groups of the rows, in order of appearance, one per row with a group. */
  function GroupColumn(rows: seq<ScoredRow>): (g: seq<string>)
    ensures forall t :: t in g <==> exists i :: 0 <= i < |rows| && rows[i].topicGroup == Some(t)
  {
    if |rows| == 0 then []
    else
      var rest := GroupColumn(rows[1..]);
      assert forall i :: 0 < i < |rows| ==> rows[i] == rows[1..][i - 1];
      (if rows[0].topicGroup.Some? then [rows[0].topicGroup.value] else []) + rest
  }

  /** The reference summary: one entry per topic group present in the rows. */
  ghost function ScoreSpec(rows: seq<ScoredRow>): map<string, TopicScore>
  {
    map t | t in GroupColumn(rows) :: TopicScoreOf(ScoresOf(rows, t))
  }

  /** The body of the loop for one group: the mean of its scores, the label
      read off the mean, the three sign counts and the number of scores. It
      mirrors app.py:172-193 statement by statement, so it repeats the
      computation of `TopicScoreOf` and is proved equal to it. */
  method ScoreGroup(scores: seq<real>) returns (entry: TopicScore)
    requires |scores| > 0
    ensures entry == TopicScoreOf(scores)
  {
    var meanScore := Mean(scores);
    var verdict := if meanScore > PositiveThreshold then "Positive"
                   else if meanScore < NegativeThreshold then "Negative"
                   else "Neutral";
    entry := TopicScore(meanScore, verdict, CountPositive(scores), CountNegative(scores),
                        CountZero(scores), |scores|);
  }

  /** The loop over the groups: each group's scores are summarised. An empty
      frame gives the empty summary. */
  method OverallSentimentByTopic(rows: seq<ScoredRow>) returns (result: map<string, TopicScore>)
    ensures |rows| == 0 ==> result == map[]
    ensures result == ScoreSpec(rows)
  {
    if |rows| == 0 {
      return map[];
    }
    var topics := Unique(GroupColumn(rows));
    result := map[];
    var n := 0;
    while n < |topics|
      invariant 0 <= n <= |topics|
      invariant forall t :: t in result <==> exists j :: 0 <= j < n && topics[j] == t
      invariant forall t :: t in result ==> |ScoresOf(rows, t)| > 0 && result[t] == TopicScoreOf(ScoresOf(rows, t))
    {
      var topic := topics[n];
      var entry := ScoreGroup(ScoresOf(rows, topic));
      result := result[topic := entry];
      n := n + 1;
    }
    ScoreSpecByEntries(rows, result);
  }

  /** A map whose keys are the groups of the rows and whose values summarise
      each group's scores is the reference summary. */
  lemma ScoreSpecByEntries(rows: seq<ScoredRow>, m: map<string, TopicScore>)
    requires forall t :: t in m <==> t in GroupColumn(rows)
    requires forall t :: t in m ==> |ScoresOf(rows, t)| > 0 && m[t] == TopicScoreOf(ScoresOf(rows, t))
    ensures m == ScoreSpec(rows)
  {
  }

  // ---------------------------------------------------------------------
  // Properties

  /** Every score is above, below or equal to zero, so the three counts
      partition the group. */
  lemma {:induction false} SignCountsPartition(scores: seq<real>)
    ensures CountPositive(scores) + CountNegative(scores) + CountZero(scores) == |scores|
  {
    if |scores| > 0 {
      SignCountsPartition(scores[1..]);
    }
  }

  /** Bounds on every score bound their sum. */
  lemma {:induction false} SumBetween(scores: seq<real>, lo: real, hi: real)
    requires forall i :: 0 <= i < |scores| ==> lo <= scores[i] <= hi
    ensures (|scores| as real) * lo <= Sum(scores) <= (|scores| as real) * hi
  {
    if |scores| > 0 {
      assert forall i :: 0 <= i < |scores[1..]| ==> scores[1..][i] == scores[i + 1];
      SumBetween(scores[1..], lo, hi);
      var m := |scores[1..]| as real;
      assert (|scores| as real) * lo == m * lo + lo;
      assert (|scores| as real) * hi == m * hi + hi;
    }
  }

  /** The mean lies between any bounds on the scores: a group whose every
      score is above 0.05 is labelled "Positive", one whose every score is
      below -0.05 "Negative". */
  lemma MeanBetween(scores: seq<real>, lo: real, hi: real)
    requires |scores| > 0
    requires forall i :: 0 <= i < |scores| ==> lo <= scores[i] <= hi
    ensures lo <= Mean(scores) <= hi
    ensures lo > PositiveThreshold ==> LabelOf(Mean(scores)) == "Positive"
    ensures hi < NegativeThreshold ==> LabelOf(Mean(scores)) == "Negative"
  {
    SumBetween(scores, lo, hi);
    var n := |scores| as real;
    assert lo * n <= Sum(scores) <= hi * n;
    assert lo <= Sum(scores) / n by {
      assert Sum(scores) / n * n == Sum(scores);
    }
    assert Sum(scores) / n <= hi by {
      assert Sum(scores) / n * n == Sum(scores);
    }
  }

  /** What each entry of the summary holds: the keys are exactly the groups
      present; each group has at least one sentence; its three counts are
      the numbers of its scores above, below and equal to zero, and partition
      its sentences; its score is the mean of its scores and its label
      follows the two thresholds strictly. Stated on the rows of the group:
      its number of sentences is their number, its counts are the numbers of
      them scored above, below and at zero, and its score is the sum of their
      scores divided by their number. */
  lemma ScoreEntryMeaning(rows: seq<ScoredRow>, t: string)
    ensures t in ScoreSpec(rows) <==> exists i :: 0 <= i < |rows| && rows[i].topicGroup == Some(t)
    ensures t in ScoreSpec(rows) ==>
      var e := ScoreSpec(rows)[t];
      var scores := ScoresOf(rows, t);
      && 0 < e.totalSentences == |scores| <= |rows|
      && e.positiveCount == CountPositive(scores)
      && e.negativeCount == CountNegative(scores)
      && e.neutralCount == CountZero(scores)
      && e.positiveCount + e.negativeCount + e.neutralCount == e.totalSentences
      && e.overallScore == Mean(scores)
      && e.totalSentences == RowsIn(rows, t)
      && e.positiveCount == RowsWithSign(rows, t, 1)
      && e.negativeCount == RowsWithSign(rows, t, -1)
      && e.neutralCount == RowsWithSign(rows, t, 0)
      && e.overallScore == SumIn(rows, t) / (RowsIn(rows, t) as real)
      && (e.sentimentLabel == "Positive" <==> e.overallScore > 0.05)
      && (e.sentimentLabel == "Negative" <==> e.overallScore < -0.05)
      && (e.sentimentLabel == "Neutral" <==> -0.05 <= e.overallScore <= 0.05)
  {
    if t in ScoreSpec(rows) {
      var scores := ScoresOf(rows, t);
      assert ScoreSpec(rows)[t] == TopicScoreOf(scores);
      SignCountsPartition(scores);
      ScoresOfRows(rows, t);
    }
  }

  /** A group's scores are those of its rows: there are as many as the
      group has rows, as many above, below and at zero as its rows have,
      and they add up to the sum over its rows. */
  lemma {:induction false} ScoresOfRows(rows: seq<ScoredRow>, t: string)
    ensures |ScoresOf(rows, t)| == RowsIn(rows, t)
    ensures CountPositive(ScoresOf(rows, t)) == RowsWithSign(rows, t, 1)
    ensures CountNegative(ScoresOf(rows, t)) == RowsWithSign(rows, t, -1)
    ensures CountZero(ScoresOf(rows, t)) == RowsWithSign(rows, t, 0)
    ensures Sum(ScoresOf(rows, t)) == SumIn(rows, t)
  {
    if |rows| > 0 {
      ScoresOfRows(rows[1..], t);
      var rest := ScoresOf(rows[1..], t);
      if rows[0].topicGroup == Some(t) {
        assert ScoresOf(rows, t) == [rows[0].score] + rest;
        assert ([rows[0].score] + rest)[1..] == rest;
      } else {
        assert ScoresOf(rows, t) == rest;
      }
    }
  }

  /** The three labels on small groups. */
  lemma LabelExamples()
    ensures TopicScoreOf([0.1, 0.2]).sentimentLabel == "Positive"
    ensures TopicScoreOf([-0.1, 0.0]).sentimentLabel == "Neutral"
    ensures TopicScoreOf([-0.2, -0.1]).sentimentLabel == "Negative"
    ensures TopicScoreOf([-0.1, 0.0]) == TopicScore(-0.05, "Neutral", 0, 1, 1, 2)
  {
    assert Sum([0.1, 0.2]) == 0.3 by { assert [0.1, 0.2][1..] == [0.2]; }
    assert Sum([-0.1, 0.0]) == -0.1 by { assert [-0.1, 0.0][1..] == [0.0]; }
    assert Sum([-0.2, -0.1]) == -0.3 by { assert [-0.2, -0.1][1..] == [-0.1]; }
    assert CountPositive([-0.1, 0.0]) == 0 by { assert [-0.1, 0.0][1..] == [0.0]; }
    assert CountNegative([-0.1, 0.0]) == 1 by { assert [-0.1, 0.0][1..] == [0.0]; }
    assert CountZero([-0.1, 0.0]) == 1 by { assert [-0.1, 0.0][1..] == [0.0]; }
  }
}
