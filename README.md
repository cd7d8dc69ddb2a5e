# Feedback analysis — a Dafny model

The Feedback application summarises course feedback by topic and sentiment.
A feedback row carries a free-text remark. A topic model gives each answer a
numeric topic id, and `map_topic_conditional` turns that id into a named
*topic group* using a fixed table of 27 groups. `analyze_feedback` summarises
a selected day in one of two ways:

- **Today.** It reads the live sheet, keeps today's rows and resolves each
  row's group. For every group it reports the first positive remark, the
  first negative remark and how many of each there are.
- **Any other day.** It reads a processed historical dataset and keeps that
  day's rows. It then counts the rows of every (group, sentiment label) pair.
  For each group it reports its positive, neutral and negative counts and
  their balance, positives minus negatives.

`overall_sentiment_by_topic` summarises sentence-level sentiment scores per
group. For each group it gives the mean score and a label read off the mean
with strict thresholds of ±0.05. It also counts the positive, negative and
zero scores.

The model has six modules:

- `Tables` (tables.dfy): shared values (`Option`, `Result`, `Date`) and
  `Unique`, the order-preserving distinct values of a column.
- `TopicResolver` (topics.dfy): the topic table, the empty-comment words and
  the resolver `MapTopic`. The lemmas cover:
  - first-match resolution;
  - the ids claimed twice;
  - the two groups the resolver can never return;
  - coverage of the ids 0 to 56;
  - the substring semantics of the empty-comment test.
- `Live` (live.dfy): the live branch. `LiveSummary` is a loop over the
  distinct groups. It is proved equal to `LiveSpec`, a reference summary
  stated directly on the sheet's rows. The resolver is a parameter, the
  function that `DataFrame.apply` applies to each row. Its results hold for
  any resolver. The dispatcher passes `TopicResolver.MapTopic`.
- `Historical` (historical.dfy): the historical branch.
  - `HistoricalSummary` states its three outcomes:
    - an empty day gives the empty summary, checked before the columns are;
    - a dataset without the required columns gives the error;
    - otherwise it gives the summary.
  - `PivotGroups` is the group-by, pivot and conversion loop. Its result is
    tied to `HistSpec`, a reference stated on the dataset's rows.
- `SentenceScoring` (scoring.dfy): `overall_sentiment_by_topic`. Its loop is
  proved equal to `ScoreSpec`. Lemmas cover the label thresholds, the sign
  counts and the mean's bounds.
- `AnalyzeFeedback` (analyze.dfy): the dispatcher on the selected date.

Some behaviour of the resolver follows from the table and code exactly as
written. The lemmas state it:

- Ids 10, 11, 14, 18 and 22 are each claimed by two groups. The dictionary
  is scanned in insertion order, so the earlier group always wins.
- Every id of "Overall Satisfaction with No Suggestions for Improvement"
  ([11]) and of "Classroom Thermal Comfort and Air Conditioning Issues"
  ([18]) is claimed earlier. These two groups are never returned.
- The empty-comment test looks for substrings, not words. "I KNOW" counts as
  no comment, because "know" contains "no". The words "nop" and "noo" are
  redundant beside "no".

## Model

| member | source | states |
|---|---|---|
| Tables.Unique | app.py:106 | the distinct values of a column: exactly the values that occur, without repetition |
| TopicResolver.FirstMatch | app.py:58-60 | the scan of the table in order: the index found claims the id and no earlier entry does; none is found exactly when no entry claims it |
| TopicResolver.Lower | app.py:63 | lower-casing keeps the length, leaves no letter A-Z, turns each A-Z into its lower-case letter and keeps every other character |
| TopicResolver.Contains | app.py:64 | Python's `word in sentence` holds exactly when the word occurs at some position of the sentence |
| TopicResolver.AnyContained | app.py:64 | the `any(...)` over the word list holds exactly when some listed word occurs in the sentence |
| TopicResolver.MapTopic | app.py:55-67 | with an id present, the result is the group of the first entry claiming the id, or "Other" if no entry does; with no id, it is "Nothing, No Suggestion" exactly when an empty-comment word occurs in the lower-cased remark, and "Other" otherwise |
| TopicResolver.ResolvesAt | app.py:57-60 | an id resolves to the group of the first entry that claims it |
| TopicResolver.SharedIdsAt | app.py:22-50 | ids 10, 11, 14, 18 and 22 are each claimed by exactly two entries, named by index |
| TopicResolver.NoSuggestionIdsAt | app.py:22-50 | ids 38 and 44 are claimed only by the "Nothing, No Suggestion" entry |
| TopicResolver.RowInRange | app.py:22-50 | every id in the table lies between 0 and 56, and no entry is named "Other" |
| TopicResolver.NamedOnlyAt | app.py:22-50 | the names of the two shadowed groups and of the no-suggestion group each occur at exactly one index |
| TopicResolver.SharedIdResolvesToFirstClaimant | app.py:22-60 | an id claimed by two groups resolves to the group declared first and never to the later one |
| TopicResolver.UnreachableGroups | app.py:22-67 | the resolver never returns "Overall Satisfaction with No Suggestions for Improvement" or "Classroom Thermal Comfort and Air Conditioning Issues" |
| TopicResolver.Claimed | app.py:22-50 | every id from 0 to 56 is claimed by some entry |
| TopicResolver.Coverage | app.py:57-61 | a present id resolves to "Other" exactly when it is below 0 or above 56 |
| TopicResolver.NoSuggestionFromId | app.py:57-61 | a present id resolves to "Nothing, No Suggestion" exactly when it is 38 or 44 |
| TopicResolver.PrefixOccurs | app.py:64 | a sentence containing a word contains every prefix of that word |
| TopicResolver.RedundantStopWords | app.py:53 | the empty-comment test gives the same answer without "nop" and "noo" |
| TopicResolver.SubstringNotWord | app.py:62-65 | with no id, the remark "I KNOW" resolves to "Nothing, No Suggestion" |
| TopicResolver.CaseInsensitive | app.py:62-67 | with no id, two remarks that agree once lower-cased resolve to the same group |
| Live.FirstOn | app.py:110-115 | the first row of the day in a group with a given sentiment: it matches, no earlier row matches, and there is none exactly when no row matches |
| Live.RemarksLabelledMeaning | app.py:110-111 | selecting a group's remarks of one sentiment gives no more remarks than rows, each the remark of a row of that group and sentiment, and includes the remark of every such row |
| Live.OnDate | app.py:85-86 | the day filter keeps exactly the rows dated on the selected day |
| Live.OnDateKeepsCopies | app.py:86 | the day filter keeps every row of the day as many times as it occurs, and no copy of any other row |
| Live.SelectedRemarks | app.py:109-115 | a group's remarks of one sentiment are as many as the reference count, and the first is the remark of the first matching row, or none |
| Live.EntryBySelection | app.py:113-118 | the entry built from a group's selected remarks is the reference entry of that group |
| Live.DayGroups | app.py:106 | the distinct groups of the day's rows are the groups of the reference summary |
| Live.SummariseGroups | app.py:104-118 | the loop over the distinct groups gives one entry per group, built from that group's selected remarks |
| Live.LiveSummary | app.py:77-120 | the live branch returns the reference summary of the sheet on the day, and the empty summary for an empty sheet |
| Live.CountsWithinGroup | app.py:110-117 | a group's positive and negative counts together never exceed the group's rows |
| Live.FirstRemarkMeaning | app.py:114-115 | the example remark of a sentiment is that of the first matching row in sheet order, and "" when no row matches |
| Live.LiveEntryMeaning | app.py:104-120 | a group is a key exactly when a row of the day resolves to it; it then has at least one row, its counts are those of its positive and negative rows and fit within it, and its remarks are the first of each sentiment |
| Live.GroupRowsPositive | app.py:106-109 | a group that some row of the day resolves to has at least one row |
| Historical.HistOnDate | app.py:126-127 | the day filter keeps exactly the rows dated on the selected day |
| Historical.HistOnDateKeepsCopies | app.py:127 | the day filter keeps every row of the day as many times as it occurs, and no copy of any other row |
| Historical.Keys | app.py:139 | the group-by keys are exactly the (group, label) pairs of rows with both cells present |
| Historical.Size | app.py:140 | the size of a (group, label) pair is at most the number of keys, and positive exactly when the pair is a key |
| Historical.PivotGroups | app.py:138-153 | one entry per group of the keys, holding the sizes of its positive, neutral and negative groups, with 0 for a missing label, and positives minus negatives |
| Historical.HistoricalSummary | app.py:122-155 | a day without rows gives the empty summary whatever the columns; a day with rows but without both required columns gives the error "Required columns missing in historical dataset"; otherwise it gives the reference summary |
| Historical.KeysAppend | app.py:139 | the keys of two concatenated tables are the keys of each, in order |
| Historical.SizeAppend | app.py:140 | the size of a group over two concatenated key lists is the sum of its sizes |
| Historical.SizeIsCount | app.py:139-141 | the size of a (group, label) pair is the number of the day's rows with that group and label |
| Historical.KeyGroupsAreGroups | app.py:138-148 | the groups of the pivoted table are the groups with a fully labelled row on the day |
| Historical.CountsWithinGroup | app.py:138-152 | a group's three counts together never exceed its rows kept by the group-by, and they equal that number when every such row is labelled positive, neutral or negative |
| Historical.GroupedRowsPositive | app.py:139-141 | a group with a kept row on the day has at least one kept row |
| Historical.HistEntryMeaning | app.py:138-153 | a group is a key exactly when a row of the day has that group and some label; its counts are its rows of each label, its overall score is positives minus negatives, and its counts fit within its rows |
| SentenceScoring.LabelOf | app.py:179-185 | the label is "Positive" exactly when the mean is strictly above 0.05, "Negative" exactly when it is strictly below -0.05, and "Neutral" otherwise, both thresholds included |
| SentenceScoring.Mean | app.py:173 | the mean times the number of scores is their sum |
| SentenceScoring.CountPositive | app.py:175 | the count of scores above zero is at most the number of scores, is 0 exactly when none is above zero, and is the whole number exactly when all are |
| SentenceScoring.CountNegative | app.py:176 | the count of scores below zero is at most the number of scores, is 0 exactly when none is below zero, and is the whole number exactly when all are |
| SentenceScoring.CountZero | app.py:177 | the count of zero scores is at most the number of scores, is 0 exactly when none is zero, and is the whole number exactly when all are |
| SentenceScoring.TopicScoreOf | app.py:171-194 | a group's entry has as many sentences as scores; its positive, negative and neutral counts are the numbers of scores above, below and equal to zero, and add up to the sentences; its score is the mean and its label follows the strict thresholds |
| SentenceScoring.ScoreGroup | app.py:171-194 | the loop body for one group computes that group's entry |
| SentenceScoring.ScoresOf | app.py:168-171 | a group's scores are no more than the rows, and there is at least one exactly when some row has that group |
| SentenceScoring.GroupColumn | app.py:168-170 | the groups iterated over are exactly those of the rows whose group is present |
| SentenceScoring.OverallSentimentByTopic | app.py:158-196 | an empty frame gives the empty summary; otherwise the result is the reference summary, one entry per group |
| SentenceScoring.SignCountsPartition | app.py:175-177 | the positive, negative and zero counts add up to the number of scores |
| SentenceScoring.SumBetween | app.py:173 | bounds on every score bound their sum by the count times each bound |
| SentenceScoring.MeanBetween | app.py:173-185 | the mean lies within any bounds on the scores; all scores above 0.05 give "Positive", all below -0.05 give "Negative" |
| SentenceScoring.ScoresOfRows | app.py:168-177 | a group's scores are those of its rows: as many as the rows of the group, as many above, below and at zero as those rows have, and summing to the sum of those rows' scores |
| SentenceScoring.ScoreEntryMeaning | app.py:163-196 | a group is a key exactly when a row has it; its number of sentences is the number of rows of the group; its positive, negative and neutral counts are the numbers of those rows scored above, below and at zero, and partition its sentences; its score is the sum of those rows' scores divided by their number, and its label follows the strict thresholds |
| SentenceScoring.LabelExamples | app.py:179-185 | scores 0.1 and 0.2 give "Positive", -0.1 and 0.0 give "Neutral" (mean -0.05 with one negative and one zero score), and -0.2 and -0.1 give "Negative" |
| AnalyzeFeedback.Analyze | app.py:69-155 | today's date gives the live summary of the sheet; any other date gives the historical outcome: empty for a day without rows, the error for missing columns, the summary otherwise |

## Left out

- Reading the Google sheet and the CSV file, loading the topic model, and
  `print` are left out. The sheet's rows and the dataset are parameters.
- The clock is a parameter: `today` is passed to `AnalyzeFeedback.Analyze`.
- Converting timestamps to dates is left out. Every row already carries a
  `Date`.
- The topic model (`topic_model.transform`) and the sentiment model
  (`get_sentiment`, whose body is not in the source) are not modelled. Their
  outputs are fields of each live row: `topic` and `sentiment`.
- The live rows are assumed to have the "Question 11", "REMARKS" and
  "Timestamp" columns. Without "Question 11" the source fails first at
  app.py:83, where it prints that column. Were that print removed, it would
  skip adding the `topic_group` column at app.py:90 and fail at app.py:106,
  where it reads it.
- Historical.HistoricalSummary: requires the `TIMESTAMP` column. Without it
  the source raises an error, which is not modelled as a result.
- Live.LiveSummary: a non-empty sheet with no row on the day gives the empty
  summary. The source would then run the topic model and `apply` on an empty
  frame; the outcome of that is a library matter outside this model.
- TopicResolver.Lower: lower-cases only the ASCII letters A-Z. Python's
  `str.lower` also lower-cases other Unicode letters.
- Missing cells (NaN) are modelled only as `Option` values:
  - a live row's topic id;
  - the historical `topic_group` and `sentiment` cells;
  - the scored rows' `topic_group`.
  Rows with an empty group-by key are dropped, as pandas' group-by drops
  them. Missing sentiment scores are not modelled.
- SentenceScoring.OverallSentimentByTopic: scores are exact reals. The
  floating-point mean and the rounding of `overall_score` to three decimals
  are left out. The label is read off the unrounded mean, as in the source.
  The frame is assumed to have the `topic_group` and `sentiment_score`
  columns. On a non-empty frame without `topic_group` the source raises a
  `KeyError` at app.py:168. Without `sentiment_score` it raises at app.py:171
  as soon as one group exists. Neither error is modelled as a result.
- The order of the keys in the returned dictionaries is left out. A Dafny
  `map` has no order. The source lists live groups in order of first
  appearance, and pandas sorts the group-by keys.
- The Flask routes are not part of this model: `home`, `form_sentiment`,
  `overall_sentiment` and `analyze` (app.py:197-248).
- The returned dictionaries are modelled as datatypes. The historical error
  dictionary `{"error": ...}` is the `Failure` case of a `Result`.
