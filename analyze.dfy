/** `analyze_feedback`: the selected day's feedback is summarised from the
    live sheet when the day is today, and from the processed historical
    dataset otherwise. The clock, the sheet and the dataset are parameters. */
module AnalyzeFeedback {
  import opened Tables
  import TopicResolver
  import Live
  import Historical

  /** What `analyze_feedback` returns, by branch. */
  datatype Analysis =
    | LiveTopics(live: map<string, Live.LiveEntry>)
    | HistoricalTopics(historical: Result<map<string, Historical.HistEntry>, string>)

  /** Today's date goes to the live summary of the sheet, with the topic
      groups given by `map_topic_conditional`; any other date to
      the summary of the historical dataset, with its own empty-day and
      missing-column outcomes. */
  method Analyze(selected: Date, today: Date, sheet: seq<Live.LiveRow>, history: Historical.HistTable)
    returns (result: Analysis)
    requires selected != today ==> "TIMESTAMP" in history.columns
    ensures selected == today ==> result == LiveTopics(Live.LiveSpec(TopicResolver.MapTopic, sheet, selected))
    ensures selected != today ==> result.HistoricalTopics?
    ensures selected != today && (forall i :: 0 <= i < |history.rows| ==> history.rows[i].date != selected) ==>
      result == HistoricalTopics(Success(map[]))
    ensures selected != today && (exists i :: 0 <= i < |history.rows| && history.rows[i].date == selected) ==>
      result == HistoricalTopics(
        if Historical.RequiredColumns <= history.columns then Success(Historical.HistSpec(history.rows, selected))
        else Failure(Historical.MissingColumnsError))
  {
    if selected == today {
      var summary := Live.LiveSummary(TopicResolver.MapTopic, sheet, selected);
      result := LiveTopics(summary);
    } else {
      var summary := Historical.HistoricalSummary(history, selected);
      result := HistoricalTopics(summary);
    }
  }
}
