/** The live branch of `analyze_feedback`: today's rows of the sheet, each
    given a topic group by the resolver and a sentiment label by the
    sentiment model, summarised per topic group. */
module Live {
  import opened Tables

  /** A row of the live sheet, with what the two classifiers said about it:
      the topic model's id for its answer text (absent when it gave none)
      and the sentiment label of its remark. */
  datatype LiveRow = LiveRow(date: Date, remark: string, topic: Option<int>, sentiment: string)

  /** A live row once its topic id has been resolved to a topic group. */
  datatype Classified = Classified(group: string, remark: string, sentiment: string)

  /** The summary of one topic group. */
  datatype LiveEntry = LiveEntry(positiveRemark: string, negativeRemark: string, posCount: nat, negCount: nat)

  /** A topic resolver: from a row's topic id (or its absence) and its remark
      to a topic group. The dispatcher passes `TopicResolver.MapTopic`; the
      summary is stated for whichever resolver it is given, as
      `DataFrame.apply` works for whichever function it is given. */
  type Resolver = (Option<int>, string) -> string

  /** The topic group the resolver gives a row. */
  function GroupOf(resolve: Resolver, r: LiveRow): string
  {
    resolve(r.topic, r.remark)
  }

  /** Row `r` is dated `d`, falls in `group` and carries sentiment `polarity`. */
  predicate Matches(resolve: Resolver, r: LiveRow, d: Date, group: string, polarity: string)
  {
    r.date == d && GroupOf(resolve, r) == group && r.sentiment == polarity
  }

  // ---------------------------------------------------------------------
  // Reference definitions, stated on the sheet itself

  /** The topic groups of the rows dated `d`. */
  ghost function GroupsOn(resolve: Resolver, rows: seq<LiveRow>, d: Date): set<string>
  {
    set i | 0 <= i < |rows| && rows[i].date == d :: GroupOf(resolve, rows[i])
  }

  /** How many rows dated `d` fall in `group` and carry sentiment `polarity`. */
  function CountOn(resolve: Resolver, rows: seq<LiveRow>, d: Date, group: string, polarity: string): nat
  {
    if |rows| == 0 then 0
    else (if Matches(resolve, rows[0], d, group, polarity) then 1 else 0) + CountOn(resolve, rows[1..], d, group, polarity)
  }

  /** How many rows dated `d` fall in `group`. */
  function GroupRowsOn(resolve: Resolver, rows: seq<LiveRow>, d: Date, group: string): nat
  {
    if |rows| == 0 then 0
    else (if rows[0].date == d && GroupOf(resolve, rows[0]) == group then 1 else 0) + GroupRowsOn(resolve, rows[1..], d, group)
  }

  /** The position in the sheet of the first row dated `d` in `group` with
      sentiment `polarity`. */
  function FirstOn(resolve: Resolver, rows: seq<LiveRow>, d: Date, group: string, polarity: string): (r: Option<nat>)
    ensures r.Some? ==> r.value < |rows| && Matches(resolve, rows[r.value], d, group, polarity)
    ensures r.Some? ==> forall j :: 0 <= j < r.value ==> !Matches(resolve, rows[j], d, group, polarity)
    ensures r.None? <==> forall j :: 0 <= j < |rows| ==> !Matches(resolve, rows[j], d, group, polarity)
  {
    if |rows| == 0 then None
    else if Matches(resolve, rows[0], d, group, polarity) then Some(0)
    else
      match FirstOn(resolve, rows[1..], d, group, polarity)
      case None => None
      case Some(k) => Some(k + 1)
  }

  /** The remark of that first row, or "" when there is none. */
  function FirstRemarkOn(resolve: Resolver, rows: seq<LiveRow>, d: Date, group: string, polarity: string): string
  {
    match FirstOn(resolve, rows, d, group, polarity)
    case None => ""
    case Some(i) => rows[i].remark
  }

  ghost function EntryOn(resolve: Resolver, rows: seq<LiveRow>, d: Date, group: string): LiveEntry
  {
    LiveEntry(FirstRemarkOn(resolve, rows, d, group, "positive"), FirstRemarkOn(resolve, rows, d, group, "negative"),
              CountOn(resolve, rows, d, group, "positive"), CountOn(resolve, rows, d, group, "negative"))
  }

  /** The reference summary: one entry per topic group of the rows dated `d`. */
  ghost function LiveSpec(resolve: Resolver, rows: seq<LiveRow>, d: Date): map<string, LiveEntry>
  {
    map t | t in GroupsOn(resolve, rows, d) :: EntryOn(resolve, rows, d, t)
  }

  // ---------------------------------------------------------------------
  // The table operations the branch performs

  /** The rows dated `d`, in sheet order, */
  function OnDate(rows: seq<LiveRow>, d: Date): (r: seq<LiveRow>)
    ensures forall x :: x in r <==> x in rows && x.date == d
  {
    if |rows| == 0 then []
    else (if rows[0].date == d then [rows[0]] else []) + OnDate(rows[1..], d)
  }

  /** The filter drops no copy of a row of the day: each row dated `d` is
      kept as many times as it occurs, and every other row not at all. */
  lemma {:induction false} OnDateKeepsCopies(rows: seq<LiveRow>, d: Date)
    ensures forall x :: multiset(OnDate(rows, d))[x] == if x.date == d then multiset(rows)[x] else 0
  {
    if |rows| > 0 {
      OnDateKeepsCopies(rows[1..], d);
      assert rows == [rows[0]] + rows[1..];
    }
  }

  /** Adds the `topic_group` column. */
  function Classify(resolve: Resolver, rows: seq<LiveRow>): seq<Classified>
  {
    seq(|rows|, i requires 0 <= i < |rows| => Classified(GroupOf(resolve, rows[i]), rows[i].remark, rows[i].sentiment))
  }

  /** The `topic_group` column. */
  function GroupColumn(c: seq<Classified>): seq<string>
  {
    seq(|c|, i requires 0 <= i < |c| => c[i].group)
  }

  /** The remarks of the rows of `group` with sentiment `polarity`, in order. */
  function RemarksLabelled(c: seq<Classified>, group: string, polarity: string): seq<string>
  {
    if |c| == 0 then []
    else
      (if c[0].group == group && c[0].sentiment == polarity then [c[0].remark] else [])
      + RemarksLabelled(c[1..], group, polarity)
  }

  /** The selection keeps, in order, only remarks of rows of `group` with
      sentiment `polarity`: no more remarks than rows, each from such a row,
      and the remark of every such row among them. */
  lemma {:induction false} RemarksLabelledMeaning(c: seq<Classified>, group: string, polarity: string)
    ensures var r := RemarksLabelled(c, group, polarity);
      && |r| <= |c|
      && (forall k :: 0 <= k < |r| ==>
            exists i :: 0 <= i < |c| && c[i].group == group && c[i].sentiment == polarity && c[i].remark == r[k])
      && (forall i :: 0 <= i < |c| && c[i].group == group && c[i].sentiment == polarity ==> c[i].remark in r)
  {
    if |c| > 0 {
      RemarksLabelledMeaning(c[1..], group, polarity);
      var r := RemarksLabelled(c, group, polarity);
      var rest := RemarksLabelled(c[1..], group, polarity);
      var head := if c[0].group == group && c[0].sentiment == polarity then [c[0].remark] else [];
      assert r == head + rest;
      forall k | 0 <= k < |r|
        ensures exists i :: 0 <= i < |c| && c[i].group == group && c[i].sentiment == polarity && c[i].remark == r[k]
      {
        if k < |head| {
          assert c[0].remark == r[k];
        } else {
          var i :| 0 <= i < |c[1..]| && c[1..][i].group == group && c[1..][i].sentiment == polarity
            && c[1..][i].remark == rest[k - |head|];
          assert c[i + 1] == c[1..][i];
        }
      }
      forall i | 0 <= i < |c| && c[i].group == group && c[i].sentiment == polarity
        ensures c[i].remark in r
      {
        if i > 0 {
          assert c[1..][i - 1] == c[i];
        }
      }
    }
  }

  lemma ClassifyAppend(resolve: Resolver, a: seq<LiveRow>, b: seq<LiveRow>)
    ensures Classify(resolve, a + b) == Classify(resolve, a) + Classify(resolve, b)
  {
    var c := Classify(resolve, a + b);
    assert |c| == |Classify(resolve, a) + Classify(resolve, b)|;
    forall i | 0 <= i < |c| ensures c[i] == (Classify(resolve, a) + Classify(resolve, b))[i] {
      if i < |a| {
        assert (a + b)[i] == a[i];
      } else {
        assert (a + b)[i] == b[i - |a|];
      }
    }
  }

  lemma ClassifyFront(resolve: Resolver, rows: seq<LiveRow>, d: Date)
    requires |rows| > 0
    ensures Classify(resolve, OnDate(rows, d)) ==
      (if rows[0].date == d then [Classified(GroupOf(resolve, rows[0]), rows[0].remark, rows[0].sentiment)] else [])
      + Classify(resolve, OnDate(rows[1..], d))
  {
    if rows[0].date == d {
      assert OnDate(rows, d) == [rows[0]] + OnDate(rows[1..], d);
      ClassifyAppend(resolve, [rows[0]], OnDate(rows[1..], d));
      assert Classify(resolve, [rows[0]]) == [Classified(GroupOf(resolve, rows[0]), rows[0].remark, rows[0].sentiment)];
    } else {
      assert OnDate(rows, d) == OnDate(rows[1..], d);
    }
  }

  /** Filtering the day, resolving the groups and selecting one group's rows
      of one sentiment yields, in order, the remarks that the reference
      definitions count and pick from. */
  lemma {:induction false} SelectedRemarks(resolve: Resolver, rows: seq<LiveRow>, d: Date, group: string, polarity: string)
    ensures var r := RemarksLabelled(Classify(resolve, OnDate(rows, d)), group, polarity);
      && |r| == CountOn(resolve, rows, d, group, polarity)
      && (|r| > 0 ==> r[0] == FirstRemarkOn(resolve, rows, d, group, polarity))
      && (|r| == 0 ==> FirstRemarkOn(resolve, rows, d, group, polarity) == "")
  {
    if |rows| > 0 {
      SelectedRemarks(resolve, rows[1..], d, group, polarity);
      ClassifyFront(resolve, rows, d);
      var c := Classify(resolve, OnDate(rows, d));
      var rest := Classify(resolve, OnDate(rows[1..], d));
      if rows[0].date == d {
        assert c == [c[0]] + rest;
        assert c[1..] == rest;
        assert RemarksLabelled(c, group, polarity) ==
          (if Matches(resolve, rows[0], d, group, polarity) then [rows[0].remark] else []) + RemarksLabelled(rest, group, polarity);
      } else {
        assert c == rest;
      }
    }
  }

  /** A group's reference entry is built from its selected remarks: the first
      of each sentiment (or "") and how many there are. */
  lemma EntryBySelection(resolve: Resolver, rows: seq<LiveRow>, d: Date, t: string)
    ensures EntryOn(resolve, rows, d, t) == SelectionEntry(Classify(resolve, OnDate(rows, d)), t)
  {
    SelectedRemarks(resolve, rows, d, t, "positive");
    SelectedRemarks(resolve, rows, d, t, "negative");
  }

  /** The distinct groups of the day's rows are those of the reference. */
  lemma DayGroups(resolve: Resolver, rows: seq<LiveRow>, d: Date)
    ensures forall t :: t in GroupColumn(Classify(resolve, OnDate(rows, d))) <==> t in GroupsOn(resolve, rows, d)
  {
    var dated := OnDate(rows, d);
    var g := GroupColumn(Classify(resolve, dated));
    forall t | t in g ensures t in GroupsOn(resolve, rows, d) {
      var i :| 0 <= i < |g| && g[i] == t;
      assert dated[i] in rows;
      var j :| 0 <= j < |rows| && rows[j] == dated[i];
      assert GroupOf(resolve, rows[j]) == t;
    }
    forall t | t in GroupsOn(resolve, rows, d) ensures t in g {
      var j :| 0 <= j < |rows| && rows[j].date == d && GroupOf(resolve, rows[j]) == t;
      assert rows[j] in dated;
      var i :| 0 <= i < |dated| && dated[i] == rows[j];
      assert g[i] == t;
    }
  }

  /** The live branch once the sheet has been read: filter the rows to the
      day, add the `topic_group` column, then summarise each distinct group. */
  method LiveSummary(resolve: Resolver, rows: seq<LiveRow>, d: Date) returns (result: map<string, LiveEntry>)
    ensures result == LiveSpec(resolve, rows, d)
  {
    if |rows| == 0 {
      return map[];
    }
    var dated := OnDate(rows, d);
    var c := Classify(resolve, dated);
    result := SummariseGroups(c);
    forall t | t in result ensures result[t] == EntryOn(resolve, rows, d, t) {
      EntryBySelection(resolve, rows, d, t);
    }
    DayGroups(resolve, rows, d);
    SpecByEntries(resolve, rows, d, result);
  }

  /** The summary entry built from the selected remarks of one group. */
  function SelectionEntry(c: seq<Classified>, t: string): LiveEntry
  {
    var pos := RemarksLabelled(c, t, "positive");
    var neg := RemarksLabelled(c, t, "negative");
    LiveEntry(if |pos| > 0 then pos[0] else "", if |neg| > 0 then neg[0] else "", |pos|, |neg|)
  }

  /** The loop over the distinct topic groups (in order of first appearance):
      for each, select its positive and its negative remarks and record the
      first of each (or "") and how many there are. */
  method SummariseGroups(c: seq<Classified>) returns (result: map<string, LiveEntry>)
    ensures forall t :: t in result <==> t in GroupColumn(c)
    ensures forall t :: t in result ==> result[t] == SelectionEntry(c, t)
  {
    var topics := Unique(GroupColumn(c));
    result := map[];
    var n := 0;
    while n < |topics|
      invariant 0 <= n <= |topics|
      invariant forall t :: t in result <==> exists j :: 0 <= j < n && topics[j] == t
      invariant forall t :: t in result ==> result[t] == SelectionEntry(c, t)
    {
      var t := topics[n];
      var pos := RemarksLabelled(c, t, "positive");
      var neg := RemarksLabelled(c, t, "negative");
      result := result[t := LiveEntry(if |pos| > 0 then pos[0] else "", if |neg| > 0 then neg[0] else "", |pos|, |neg|)];
      n := n + 1;
    }
  }

  /** A map whose keys are the day's groups and whose values are their
      reference entries is the reference summary. */
  lemma SpecByEntries(resolve: Resolver, rows: seq<LiveRow>, d: Date, m: map<string, LiveEntry>)
    requires forall t :: t in m <==> t in GroupsOn(resolve, rows, d)
    requires forall t :: t in m ==> m[t] == EntryOn(resolve, rows, d, t)
    ensures m == LiveSpec(resolve, rows, d)
  {
  }

  // ---------------------------------------------------------------------
  // Properties of the summary

  /** A group's positive and negative rows are disjoint parts of the group. */
  lemma {:induction false} CountsWithinGroup(resolve: Resolver, rows: seq<LiveRow>, d: Date, group: string)
    ensures CountOn(resolve, rows, d, group, "positive") + CountOn(resolve, rows, d, group, "negative") <= GroupRowsOn(resolve, rows, d, group)
  {
    if |rows| > 0 {
      CountsWithinGroup(resolve, rows[1..], d, group);
    }
  }

  /** The example remark for a sentiment is that of the first row of the group
      with that sentiment in sheet order, and "" when there is none. */
  lemma FirstRemarkMeaning(resolve: Resolver, rows: seq<LiveRow>, d: Date, t: string, polarity: string)
    ensures (forall i :: 0 <= i < |rows| ==> !Matches(resolve, rows[i], d, t, polarity)) ==>
      FirstRemarkOn(resolve, rows, d, t, polarity) == ""
    ensures forall i :: (0 <= i < |rows| && Matches(resolve, rows[i], d, t, polarity) &&
                         forall j :: 0 <= j < i ==> !Matches(resolve, rows[j], d, t, polarity)) ==>
                        FirstRemarkOn(resolve, rows, d, t, polarity) == rows[i].remark
  {
    forall i | 0 <= i < |rows| && Matches(resolve, rows[i], d, t, polarity) &&
          (forall j :: 0 <= j < i ==> !Matches(resolve, rows[j], d, t, polarity))
      ensures FirstOn(resolve, rows, d, t, polarity) == Some(i)
    {
    }
  }

  /** What each entry of the summary holds: the keys are exactly the groups of
      the day's rows; each group has at least one row; the counts are those of
      its positive and negative rows and together do not exceed its size; the
      example remarks are those of the first positive and the first negative
      row in sheet order, and "" when there is none. */
  lemma LiveEntryMeaning(resolve: Resolver, rows: seq<LiveRow>, d: Date, t: string)
    ensures t in LiveSpec(resolve, rows, d) <==> exists i :: 0 <= i < |rows| && rows[i].date == d && GroupOf(resolve, rows[i]) == t
    ensures t in LiveSpec(resolve, rows, d) ==>
      var e := LiveSpec(resolve, rows, d)[t];
      && e.posCount == CountOn(resolve, rows, d, t, "positive")
      && e.negCount == CountOn(resolve, rows, d, t, "negative")
      && 0 < GroupRowsOn(resolve, rows, d, t)
      && e.posCount + e.negCount <= GroupRowsOn(resolve, rows, d, t)
      && e.positiveRemark == FirstRemarkOn(resolve, rows, d, t, "positive")
      && e.negativeRemark == FirstRemarkOn(resolve, rows, d, t, "negative")
  {
    if t in LiveSpec(resolve, rows, d) {
      assert LiveSpec(resolve, rows, d)[t] == EntryOn(resolve, rows, d, t);
      CountsWithinGroup(resolve, rows, d, t);
      var i :| 0 <= i < |rows| && rows[i].date == d && GroupOf(resolve, rows[i]) == t;
      GroupRowsPositive(resolve, rows, d, t, i);
    }
  }

  /** A group with a row on the day has a positive row count. */
  lemma {:induction false} GroupRowsPositive(resolve: Resolver, rows: seq<LiveRow>, d: Date, group: string, i: nat)
    requires i < |rows| && rows[i].date == d && GroupOf(resolve, rows[i]) == group
    ensures GroupRowsOn(resolve, rows, d, group) > 0
  {
    if i > 0 {
      assert rows[1..][i - 1] == rows[i];
      GroupRowsPositive(resolve, rows[1..], d, group, i - 1);
    }
  }
}
