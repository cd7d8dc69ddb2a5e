/** The historical branch of `analyze_feedback`: the rows of the processed
    dataset dated on the selected day, counted per topic group and sentiment
    label (a group-by on both columns, pivoted so that each sentiment label
    becomes a column). */
module Historical {
  import opened Tables

  /** A row of the processed dataset. A cell is `None` when it is empty (NaN);
      the group-by drops rows whose `topic_group` or `sentiment` is empty. */
  datatype HistRow = HistRow(date: Date, topicGroup: Option<string>, sentiment: Option<string>)

  /** The dataset: the names of its columns and its rows. */
  datatype HistTable = HistTable(columns: set<string>, rows: seq<HistRow>)

  /** The summary of one topic group. */
  datatype HistEntry = HistEntry(positive: nat, neutral: nat, negative: nat, overallScore: int)

  const RequiredColumns: set<string> := {"topic_group", "sentiment"}
  const MissingColumnsError := "Required columns missing in historical dataset"

  // ---------------------------------------------------------------------
  // Reference definitions, stated on the dataset itself

  /** Row `r` is dated `d`, belongs to group `t` and is labelled `s`. */
  predicate HistMatches(r: HistRow, d: Date, t: string, s: string)
  {
    r.date == d && r.topicGroup == Some(t) && r.sentiment == Some(s)
  }

  /** Row `r` is dated `d`, belongs to group `t` and carries some label:
      a row the group-by keeps for `t`. */
  predicate Grouped(r: HistRow, d: Date, t: string)
  {
    r.date == d && r.topicGroup == Some(t) && r.sentiment.Some?
  }

  /** How many rows dated `d` are in group `t` with label `s`. */
  function CountHist(rows: seq<HistRow>, d: Date, t: string, s: string): nat
  {
    if |rows| == 0 then 0
    else (if HistMatches(rows[0], d, t, s) then 1 else 0) + CountHist(rows[1..], d, t, s)
  }

  /** How many rows dated `d` the group-by keeps for group `t`. */
  function GroupedRows(rows: seq<HistRow>, d: Date, t: string): nat
  {
    if |rows| == 0 then 0
    else (if Grouped(rows[0], d, t) then 1 else 0) + GroupedRows(rows[1..], d, t)
  }

  /** The groups that have at least one row kept by the group-by on day `d`. */
  ghost function HistGroupsOn(rows: seq<HistRow>, d: Date): set<string>
  {
    set i | 0 <= i < |rows| && rows[i].date == d && rows[i].topicGroup.Some? && rows[i].sentiment.Some?
      :: rows[i].topicGroup.value
  }

  /** The entry of group `t`: its three counts, and positives minus negatives. */
  function HistEntryOn(rows: seq<HistRow>, d: Date, t: string): HistEntry
  {
    var pos := CountHist(rows, d, t, "positive");
    var neg := CountHist(rows, d, t, "negative");
    HistEntry(pos, CountHist(rows, d, t, "neutral"), neg, pos as int - neg as int)
  }

  /** The reference summary of day `d`. */
  ghost function HistSpec(rows: seq<HistRow>, d: Date): map<string, HistEntry>
  {
    map t | t in HistGroupsOn(rows, d) :: HistEntryOn(rows, d, t)
  }

  // ---------------------------------------------------------------------
  // The table operations the branch performs

  /** The rows dated `d`, in file order, */
  function HistOnDate(rows: seq<HistRow>, d: Date): (r: seq<HistRow>)
    ensures forall x :: x in r <==> x in rows && x.date == d
  {
    if |rows| == 0 then []
    else (if rows[0].date == d then [rows[0]] else []) + HistOnDate(rows[1..], d)
  }

  /** The filter drops no copy of a row of the day: each row dated `d` is
      kept as many times as it occurs, and every other row not at all. */
  lemma {:induction false} HistOnDateKeepsCopies(rows: seq<HistRow>, d: Date)
    ensures forall x :: multiset(HistOnDate(rows, d))[x] == if x.date == d then multiset(rows)[x] else 0
  {
    if |rows| > 0 {
      HistOnDateKeepsCopies(rows[1..], d);
      assert rows == [rows[0]] + rows[1..];
    }
  }

  /** The (topic_group, sentiment) keys of the group-by: one per row whose two
      cells are both present, in order. */
  function Keys(rows: seq<HistRow>): (k: seq<(string, string)>)
    ensures forall p :: p in k <==> exists r :: r in rows && r.topicGroup == Some(p.0) && r.sentiment == Some(p.1)
  {
    if |rows| == 0 then []
    else
      var r := rows[0];
      assert forall x :: x in rows <==> x == r || x in rows[1..];
      (if r.topicGroup.Some? && r.sentiment.Some? then [(r.topicGroup.value, r.sentiment.value)] else [])
      + Keys(rows[1..])
  }

  /** The `size()` of group (t, s): how many keys equal it. */
  function Size(keys: seq<(string, string)>, t: string, s: string): (n: nat)
    ensures n <= |keys|
    ensures n > 0 <==> (t, s) in keys
  {
    if |keys| == 0 then 0
    else (if keys[0] == (t, s) then 1 else 0) + Size(keys[1..], t, s)
  }

  /** The topic groups of the keys, in order. */
  function KeyGroups(keys: seq<(string, string)>): seq<string>
  {
    seq(|keys|, i requires 0 <= i < |keys| => keys[i].0)
  }

  /** A row of the pivoted table, with a missing label column read as 0. */
  function PivotEntry(keys: seq<(string, string)>, t: string): HistEntry
  {
    var pos := Size(keys, t, "positive");
    var neg := Size(keys, t, "negative");
    HistEntry(pos, Size(keys, t, "neutral"), neg, pos as int - neg as int)
  }

  /** The pivot and the conversion loop: one entry per topic group of the
      keys, holding the sizes of its positive, neutral and negative groups
      and their difference. */
  method PivotGroups(keys: seq<(string, string)>) returns (result: map<string, HistEntry>)
    ensures forall t :: t in result <==> t in KeyGroups(keys)
    ensures forall t :: t in result ==> result[t] == PivotEntry(keys, t)
  {
    var groups := Unique(KeyGroups(keys));
    result := map[];
    var n := 0;
    while n < |groups|
      invariant 0 <= n <= |groups|
      invariant forall t :: t in result <==> exists j :: 0 <= j < n && groups[j] == t
      invariant forall t :: t in result ==> result[t] == PivotEntry(keys, t)
    {
      var t := groups[n];
      var positive := Size(keys, t, "positive");
      var negative := Size(keys, t, "negative");
      result := result[t := HistEntry(positive, Size(keys, t, "neutral"), negative, positive as int - negative as int)];
      n := n + 1;
    }
  }

  /** The historical branch once the dataset has been read: filter it to the
      day; an empty day gives the empty summary before the columns are looked
      at; a dataset without the two required columns gives the error; any
      other gives the per-group counts. The dataset must have the
      `TIMESTAMP` column, without which the branch fails. */
  method HistoricalSummary(table: HistTable, d: Date) returns (result: Result<map<string, HistEntry>, string>)
    requires "TIMESTAMP" in table.columns
    ensures (forall i :: 0 <= i < |table.rows| ==> table.rows[i].date != d) ==> result == Success(map[])
    ensures (exists i :: 0 <= i < |table.rows| && table.rows[i].date == d) && !(RequiredColumns <= table.columns) ==>
      result == Failure(MissingColumnsError)
    ensures (exists i :: 0 <= i < |table.rows| && table.rows[i].date == d) && RequiredColumns <= table.columns ==>
      result == Success(HistSpec(table.rows, d))
  {
    var dated := HistOnDate(table.rows, d);
    if |dated| == 0 {
      return Success(map[]);
    }
    assert dated[0] in table.rows;
    if !(RequiredColumns <= table.columns) {
      return Failure(MissingColumnsError);
    }
    var keys := Keys(dated);
    var summary := PivotGroups(keys);
    forall t | t in summary ensures summary[t] == HistEntryOn(table.rows, d, t) {
      SizeIsCount(table.rows, d, t, "positive");
      SizeIsCount(table.rows, d, t, "neutral");
      SizeIsCount(table.rows, d, t, "negative");
    }
    KeyGroupsAreGroups(table.rows, d);
    HistSpecByEntries(table.rows, d, summary);
    return Success(summary);
  }

  // ---------------------------------------------------------------------
  // Linking the operations to the reference definitions

  lemma HistOnDateFront(rows: seq<HistRow>, d: Date)
    requires |rows| > 0
    ensures Keys(HistOnDate(rows, d)) ==
      Keys(if rows[0].date == d then [rows[0]] else []) + Keys(HistOnDate(rows[1..], d))
  {
    var head: seq<HistRow> := if rows[0].date == d then [rows[0]] else [];
    KeysAppend(head, HistOnDate(rows[1..], d));
  }

  lemma {:induction false} KeysAppend(a: seq<HistRow>, b: seq<HistRow>)
    ensures Keys(a + b) == Keys(a) + Keys(b)
  {
    if |a| > 0 {
      assert (a + b)[0] == a[0] && (a + b)[1..] == a[1..] + b;
      KeysAppend(a[1..], b);
      var r := a[0];
      var head := if r.topicGroup.Some? && r.sentiment.Some? then [(r.topicGroup.value, r.sentiment.value)] else [];
      assert Keys(a + b) == head + Keys(a[1..] + b);
      assert Keys(a) == head + Keys(a[1..]);
    } else {
      assert a + b == b;
    }
  }

  lemma {:induction false} SizeAppend(a: seq<(string, string)>, b: seq<(string, string)>, t: string, s: string)
    ensures Size(a + b, t, s) == Size(a, t, s) + Size(b, t, s)
  {
    if |a| > 0 {
      SizeAppend(a[1..], b, t, s);
      assert (a + b)[1..] == a[1..] + b;
    } else {
      assert a + b == b;
    }
  }

  /** The size of a group-by group is the number of the day's rows with that
      topic group and that label. */
  lemma {:induction false} SizeIsCount(rows: seq<HistRow>, d: Date, t: string, s: string)
    ensures Size(Keys(HistOnDate(rows, d)), t, s) == CountHist(rows, d, t, s)
  {
    if |rows| > 0 {
      SizeIsCount(rows[1..], d, t, s);
      HistOnDateFront(rows, d);
      var head: seq<HistRow> := if rows[0].date == d then [rows[0]] else [];
      SizeAppend(Keys(head), Keys(HistOnDate(rows[1..], d)), t, s);
    }
  }

  /** The topic groups of the keys are the groups of the reference. */
  lemma KeyGroupsAreGroups(rows: seq<HistRow>, d: Date)
    ensures forall t :: t in KeyGroups(Keys(HistOnDate(rows, d))) <==> t in HistGroupsOn(rows, d)
  {
    var dated := HistOnDate(rows, d);
    var keys := Keys(dated);
    var g := KeyGroups(keys);
    forall t | t in g ensures t in HistGroupsOn(rows, d) {
      var i :| 0 <= i < |g| && g[i] == t;
      assert keys[i] in keys;
      var r :| r in dated && r.topicGroup == Some(t) && r.sentiment == Some(keys[i].1);
      var j :| 0 <= j < |rows| && rows[j] == r;
      assert rows[j].topicGroup.value == t;
    }
    forall t | t in HistGroupsOn(rows, d) ensures t in g {
      var j :| 0 <= j < |rows| && rows[j].date == d && rows[j].topicGroup == Some(t) && rows[j].sentiment.Some?;
      assert rows[j] in dated;
      var p := (t, rows[j].sentiment.value);
      assert p in keys;
      var i :| 0 <= i < |keys| && keys[i] == p;
      assert g[i] == t;
    }
  }

  /** A map whose keys are the day's groups and whose values are their
      reference entries is the reference summary. */
  lemma HistSpecByEntries(rows: seq<HistRow>, d: Date, m: map<string, HistEntry>)
    requires forall t :: t in m <==> t in HistGroupsOn(rows, d)
    requires forall t :: t in m ==> m[t] == HistEntryOn(rows, d, t)
    ensures m == HistSpec(rows, d)
  {
  }

  // ---------------------------------------------------------------------
  // Properties of the summary

  /** The three counts of a group never exceed the rows the group-by keeps
      for it, and add up to exactly that number when every such row is
      labelled positive, neutral or negative. */
  lemma {:induction false} CountsWithinGroup(rows: seq<HistRow>, d: Date, t: string)
    ensures CountHist(rows, d, t, "positive") + CountHist(rows, d, t, "neutral") + CountHist(rows, d, t, "negative")
      <= GroupedRows(rows, d, t)
    ensures (forall i :: 0 <= i < |rows| && Grouped(rows[i], d, t) ==>
               rows[i].sentiment.value in {"positive", "neutral", "negative"}) ==>
      CountHist(rows, d, t, "positive") + CountHist(rows, d, t, "neutral") + CountHist(rows, d, t, "negative")
        == GroupedRows(rows, d, t)
  {
    if |rows| > 0 {
      CountsWithinGroup(rows[1..], d, t);
      if forall i :: 0 <= i < |rows| && Grouped(rows[i], d, t) ==>
           rows[i].sentiment.value in {"positive", "neutral", "negative"}
      {
        forall i | 0 <= i < |rows[1..]| && Grouped(rows[1..][i], d, t)
          ensures rows[1..][i].sentiment.value in {"positive", "neutral", "negative"}
        {
          assert rows[1..][i] == rows[i + 1];
        }
      }
    }
  }

  /** A group with a kept row on the day has a positive kept-row count. */
  lemma {:induction false} GroupedRowsPositive(rows: seq<HistRow>, d: Date, t: string, i: nat)
    requires i < |rows| && Grouped(rows[i], d, t)
    ensures GroupedRows(rows, d, t) > 0
  {
    if i > 0 {
      GroupedRowsPositive(rows[1..], d, t, i - 1);
    }
  }

  /** What each entry of the summary holds: the keys are exactly the groups
      with a row on the day whose topic group and label are both present; the
      counts are the group's rows of each label; the overall score is
      positives minus negatives; and the counts fit within the group. */
  lemma HistEntryMeaning(rows: seq<HistRow>, d: Date, t: string)
    ensures t in HistSpec(rows, d) <==> exists i :: 0 <= i < |rows| && Grouped(rows[i], d, t)
    ensures t in HistSpec(rows, d) ==>
      var e := HistSpec(rows, d)[t];
      && e.positive == CountHist(rows, d, t, "positive")
      && e.neutral == CountHist(rows, d, t, "neutral")
      && e.negative == CountHist(rows, d, t, "negative")
      && e.overallScore == e.positive - e.negative
      && 0 < GroupedRows(rows, d, t)
      && e.positive + e.neutral + e.negative <= GroupedRows(rows, d, t)
  {
    if t in HistSpec(rows, d) {
      assert HistSpec(rows, d)[t] == HistEntryOn(rows, d, t);
      CountsWithinGroup(rows, d, t);
      var i :| 0 <= i < |rows| && rows[i].date == d && rows[i].topicGroup.Some? && rows[i].sentiment.Some?
        && rows[i].topicGroup.value == t;
      GroupedRowsPositive(rows, d, t, i);
    }
    if exists i :: 0 <= i < |rows| && Grouped(rows[i], d, t) {
      var i :| 0 <= i < |rows| && Grouped(rows[i], d, t);
      assert t == rows[i].topicGroup.value;
    }
  }
}
