/** The topic resolver: from a topic model's id (or its absence) and the
    remark text to the name of a topic group. */
module TopicResolver {
  import opened Tables

  /** One entry of the topic table: a group name and the topic ids it claims. */
  type Entry = (string, seq<int>)

  /** The topic table in declaration order. A dictionary iterates in insertion
      order, so this order decides which group wins an id claimed twice. */
  const FeedbackTopics: seq<Entry> := [
    ("Sessions related to AI", [0]),
    ("Internet, Wi-Fi, and Network Connectivity Issues", [1]),
    ("Need for More Practical, Advanced, Hands-on, and Extended Sessions", [2, 22, 10, 19, 31, 48, 49]),
    ("Insufficient Break Time and Need for More Frequent Intervals", [3]),
    ("Teaching methodology & instructor effectiveness", [4, 40, 25]),
    ("Overall Positive Feedback", [5, 14, 16, 20, 21, 23, 24, 32, 33, 37, 39, 41, 46, 50, 53]),
    ("Session Pace and Speed of Delivery", [7, 10, 45]),
    ("Topic Coverage, Depth, and Time Allocation", [8]),
    ("Session Duration, Intervals, and Time Allocation", [9, 11, 28, 43, 52]),
    ("Overall Satisfaction with No Suggestions for Improvement", [11]),
    ("Need for Conceptual Clarity, Basic Explanations, and Learning Resources", [12, 34]),
    ("Interest in Continued and Advanced Skill-Based Courses", [13]),
    ("Classroom Infrastructure and Temperature Comfort", [14, 18]),
    ("Expectations for Practical Data Analytics and Office-Oriented Tools", [15]),
    ("Classroom Infrastructure and Projector Visibility Issues", [17]),
    ("Classroom Thermal Comfort and Air Conditioning Issues", [18]),
    ("Interaction, Activities and Engagement in Learning", [22, 55, 6]),
    ("Malayalam", [26]),
    ("Improvement and Minor Operational Suggestions", [27]),
    ("Audio Quality and Classroom Environment", [29]),
    ("Coding Related Queries", [30, 54]),
    ("Content Delivery and Section Quality", [35]),
    ("Information and Effectiveness of the session", [36]),
    ("Nothing, No Suggestion", [38, 44]),
    ("Study Material", [42, 47]),
    ("Presentation and slides Quality", [51]),
    ("Sitting capacity", [56])
  ]

  /** Words whose presence marks a remark as "no comment". */
  const EmptyComments: seq<string> := ["nil", "na", "null", "no", "nop", "noo"]

  const Other := "Other"
  const NoSuggestion := "Nothing, No Suggestion"

  /** The index of the first entry, in table order, whose id list holds `id`. */
  function FirstMatch(table: seq<Entry>, id: int): (r: Option<nat>)
    ensures r.Some? ==> r.value < |table| && id in table[r.value].1
    ensures r.Some? ==> forall j :: 0 <= j < r.value ==> id !in table[j].1
    ensures r.None? <==> forall j :: 0 <= j < |table| ==> id !in table[j].1
  {
    if |table| == 0 then None
    else if id in table[0].1 then Some(0)
    else
      match FirstMatch(table[1..], id)
      case None => None
      case Some(k) => Some(k + 1)
  }

  /** Lower-case a character; only the ASCII letters A-Z change. */
  function LowerChar(c: char): char
  {
    if 'A' <= c <= 'Z' then (c as int + 32) as char else c
  }

  /** `str.lower` on ASCII text: no upper-case letter is left, each A-Z
      becomes its lower-case letter, and every other character is kept. */
  function Lower(s: string): (r: string)
    ensures |r| == |s|
    ensures forall i :: 0 <= i < |r| ==> !('A' <= r[i] <= 'Z')
    ensures forall i :: 0 <= i < |s| && 'A' <= s[i] <= 'Z' ==> r[i] as int == s[i] as int + 32
    ensures forall i :: 0 <= i < |s| && !('A' <= s[i] <= 'Z') ==> r[i] == s[i]
  {
    seq(|s|, i requires 0 <= i < |s| => LowerChar(s[i]))
  }

  /** `w` occurs in `s` starting at position `i`. */
  ghost predicate OccursAt(s: string, w: string, i: int)
  {
    0 <= i && i + |w| <= |s| && s[i..i + |w|] == w
  }

  /** Python's `w in s` on strings: a substring test. */
  function Contains(s: string, w: string): (r: bool)
    ensures r <==> exists i :: OccursAt(s, w, i)
    decreases |s|
  {
    if |s| < |w| then false
    else if s[..|w|] == w then
      assert OccursAt(s, w, 0);
      true
    else
      OccursLater(s, w);
      Contains(s[1..], w)
  }

  /** When `w` is not a prefix of `s`, its occurrences in `s` are those in the tail. */
  lemma OccursLater(s: string, w: string)
    requires |w| <= |s| && s[..|w|] != w
    ensures |s| > 0
    ensures (exists i :: OccursAt(s, w, i)) <==> exists i :: OccursAt(s[1..], w, i)
  {
    if i :| OccursAt(s[1..], w, i) {
      assert s[1..][i..i + |w|] == s[i + 1..i + 1 + |w|];
      assert OccursAt(s, w, i + 1);
    }
    if i :| OccursAt(s, w, i) {
      assert i != 0;
      assert s[1..][i - 1..i - 1 + |w|] == s[i..i + |w|];
      assert OccursAt(s[1..], w, i - 1);
    }
  }

  /** `any(word in s for word in words)`. */
  function AnyContained(words: seq<string>, s: string): (r: bool)
    ensures r <==> exists k :: 0 <= k < |words| && Contains(s, words[k])
  {
    if |words| == 0 then false
    else Contains(s, words[0]) || AnyContained(words[1..], s)
  }

  /** `map_topic_conditional`: the group of a row, from its topic id when the
      topic model gave one, and from its remark's text otherwise. For an id,
      the group of the first table entry that claims it, and "Other" when no
      entry does; with no id, the no-suggestion group exactly when some
      empty-comment word occurs in the lower-cased remark, and "Other"
      otherwise. */
  function MapTopic(topic: Option<int>, remark: string): (r: string)
    ensures topic.Some? && (exists k :: 0 <= k < |FeedbackTopics| && topic.value in FeedbackTopics[k].1) ==>
      exists k :: 0 <= k < |FeedbackTopics| && topic.value in FeedbackTopics[k].1 && r == FeedbackTopics[k].0 &&
        forall j :: 0 <= j < k ==> topic.value !in FeedbackTopics[j].1
    ensures topic.Some? && (forall k :: 0 <= k < |FeedbackTopics| ==> topic.value !in FeedbackTopics[k].1) ==>
      r == Other
    ensures topic.None? ==>
      (r == NoSuggestion <==> exists k :: 0 <= k < |EmptyComments| && exists i :: OccursAt(Lower(remark), EmptyComments[k], i))
    ensures topic.None? ==> r == NoSuggestion || r == Other
  {
    match topic
    case Some(id) =>
      (match FirstMatch(FeedbackTopics, id)
       case None => Other
       case Some(k) => FeedbackTopics[k].0)
    case None =>
      if AnyContained(EmptyComments, Lower(remark)) then NoSuggestion else Other
  }

  // Facts about the fixed topic table.

  /** The rows of the table that claim the ids claimed twice. */
  lemma SharedIdsAt(k: nat)
    requires k < |FeedbackTopics|
    ensures 10 in FeedbackTopics[k].1 <==> k == 2 || k == 6
    ensures 11 in FeedbackTopics[k].1 <==> k == 8 || k == 9
    ensures 14 in FeedbackTopics[k].1 <==> k == 5 || k == 12
    ensures 18 in FeedbackTopics[k].1 <==> k == 12 || k == 15
    ensures 22 in FeedbackTopics[k].1 <==> k == 2 || k == 16
  {
    // One case per entry keeps each proof obligation to a single literal
    // list; without the split the table is too large to search at once.
    match k
    case 0 =>
    case 1 =>
    case 2 =>
    case 3 =>
    case 4 =>
    case 5 =>
    case 6 =>
    case 7 =>
    case 8 =>
    case 9 =>
    case 10 =>
    case 11 =>
    case 12 =>
    case 13 =>
    case 14 =>
    case 15 =>
    case 16 =>
    case 17 =>
    case 18 =>
    case 19 =>
    case 20 =>
    case 21 =>
    case 22 =>
    case 23 =>
    case 24 =>
    case 25 =>
    case 26 =>
  }

  /** Only the group that shares its name with the no-comment fallback
      claims 38 and 44. */
  lemma NoSuggestionIdsAt(k: nat)
    requires k < |FeedbackTopics|
    ensures 38 in FeedbackTopics[k].1 <==> k == 23
    ensures 44 in FeedbackTopics[k].1 <==> k == 23
  {
  }

  /** Every id the table claims lies in 0..56, and no row is named "Other". */
  lemma RowInRange(k: nat)
    requires k < |FeedbackTopics|
    ensures forall x :: x in FeedbackTopics[k].1 ==> 0 <= x <= 56
    ensures FeedbackTopics[k].0 != Other
  {
  }

  /** Rows 9, 15 and 23 carry names no other row carries. */
  lemma NamedOnlyAt(k: nat)
    requires k < |FeedbackTopics|
    ensures FeedbackTopics[k].0 == FeedbackTopics[9].0 <==> k == 9
    ensures FeedbackTopics[k].0 == FeedbackTopics[15].0 <==> k == 15
    ensures FeedbackTopics[k].0 == NoSuggestion <==> k == 23
  {
  }

  /** The first-match rule, read backwards: an id resolves to the row that
      claims it when no earlier row does. */
  lemma ResolvesAt(id: int, k: nat, remark: string)
    requires k < |FeedbackTopics| && id in FeedbackTopics[k].1
    requires forall j :: 0 <= j < k ==> id !in FeedbackTopics[j].1
    ensures MapTopic(Some(id), remark) == FeedbackTopics[k].0
  {
    assert FirstMatch(FeedbackTopics, id) == Some(k);
  }

  /** Each id claimed by two groups resolves to the group declared first,
      never to the later one. */
  lemma SharedIdResolvesToFirstClaimant(id: int, first: nat, second: nat, remark: string)
    requires (id, first, second) in {(10, 2, 6), (11, 8, 9), (14, 5, 12), (18, 12, 15), (22, 2, 16)}
    ensures first < second < |FeedbackTopics|
    ensures id in FeedbackTopics[first].1 && id in FeedbackTopics[second].1
    ensures MapTopic(Some(id), remark) == FeedbackTopics[first].0
    ensures MapTopic(Some(id), remark) != FeedbackTopics[second].0
  {
    forall j | 0 <= j <= second
      ensures j < first ==> id !in FeedbackTopics[j].1
      ensures j == first || j == second ==> id in FeedbackTopics[j].1
    {
      SharedIdsAt(j);
    }
    assert FeedbackTopics[first].0 != FeedbackTopics[second].0 by {
      NamedOnlyAt(first);
      NamedOnlyAt(second);
    }
    ResolvesAt(id, first, remark);
  }

  /** Two groups lose every id they claim to an earlier group, so the resolver
      never produces their names. */
  lemma UnreachableGroups(topic: Option<int>, remark: string)
    ensures MapTopic(topic, remark) != "Overall Satisfaction with No Suggestions for Improvement"
    ensures MapTopic(topic, remark) != "Classroom Thermal Comfort and Air Conditioning Issues"
  {
    assert FeedbackTopics[9].0 == "Overall Satisfaction with No Suggestions for Improvement";
    assert FeedbackTopics[15].0 == "Classroom Thermal Comfort and Air Conditioning Issues";
    if topic.Some? && FirstMatch(FeedbackTopics, topic.value).Some? {
      var k := FirstMatch(FeedbackTopics, topic.value).value;
      NamedOnlyAt(k);
      SharedIdsAt(8);
      SharedIdsAt(12);
      assert k != 9 && k != 15;
    }
  }

  /** Every id from 0 to 56 is claimed by some row. */
  lemma Claimed(id: int)
    requires 0 <= id <= 56
    ensures exists k :: 0 <= k < |FeedbackTopics| && id in FeedbackTopics[k].1
  {
    match id
    case 0 => assert id in FeedbackTopics[0].1;
    case 1 => assert id in FeedbackTopics[1].1;
    case 2 | 10 | 19 | 22 | 31 | 48 | 49 => assert id in FeedbackTopics[2].1;
    case 3 => assert id in FeedbackTopics[3].1;
    case 4 | 25 | 40 => assert id in FeedbackTopics[4].1;
    case 5 | 14 | 16 | 20 | 21 | 23 | 24 | 32 | 33 | 37 | 39 | 41 | 46 | 50 | 53 => assert id in FeedbackTopics[5].1;
    case 7 | 45 => assert id in FeedbackTopics[6].1;
    case 8 => assert id in FeedbackTopics[7].1;
    case 9 | 11 | 28 | 43 | 52 => assert id in FeedbackTopics[8].1;
    case 12 | 34 => assert id in FeedbackTopics[10].1;
    case 13 => assert id in FeedbackTopics[11].1;
    case 18 => assert id in FeedbackTopics[12].1;
    case 15 => assert id in FeedbackTopics[13].1;
    case 17 => assert id in FeedbackTopics[14].1;
    case 6 | 55 => assert id in FeedbackTopics[16].1;
    case 26 => assert id in FeedbackTopics[17].1;
    case 27 => assert id in FeedbackTopics[18].1;
    case 29 => assert id in FeedbackTopics[19].1;
    case 30 | 54 => assert id in FeedbackTopics[20].1;
    case 35 => assert id in FeedbackTopics[21].1;
    case 36 => assert id in FeedbackTopics[22].1;
    case 38 | 44 => assert id in FeedbackTopics[23].1;
    case 42 | 47 => assert id in FeedbackTopics[24].1;
    case 51 => assert id in FeedbackTopics[25].1;
    case 56 => assert id in FeedbackTopics[26].1;
  }

  /** The table claims every id from 0 to 56 and no other, so a present id
      resolves to "Other" exactly when it lies outside that range. */
  lemma Coverage(id: int, remark: string)
    ensures MapTopic(Some(id), remark) == Other <==> id < 0 || 56 < id
  {
    if 0 <= id <= 56 {
      Claimed(id);
      var k := FirstMatch(FeedbackTopics, id).value;
      RowInRange(k);
    } else {
      forall k | 0 <= k < |FeedbackTopics| ensures id !in FeedbackTopics[k].1 {
        RowInRange(k);
      }
    }
  }

  /** With an id present, the no-comment group comes only from its own ids. */
  lemma NoSuggestionFromId(id: int, remark: string)
    ensures MapTopic(Some(id), remark) == NoSuggestion <==> id == 38 || id == 44
  {
    if id == 38 || id == 44 {
      forall j | 0 <= j <= 23 ensures j < 23 ==> id !in FeedbackTopics[j].1
        ensures j == 23 ==> id in FeedbackTopics[j].1
      {
        NoSuggestionIdsAt(j);
      }
      NamedOnlyAt(23);
      ResolvesAt(id, 23, remark);
    } else if FirstMatch(FeedbackTopics, id).Some? {
      var k := FirstMatch(FeedbackTopics, id).value;
      NamedOnlyAt(k);
      assert FeedbackTopics[23].1 == [38, 44];
    }
  }

  /** An occurrence of `w` is also an occurrence of each prefix of `w`. */
  lemma PrefixOccurs(s: string, w: string, p: string)
    requires p <= w && Contains(s, w)
    ensures Contains(s, p)
  {
    var i :| OccursAt(s, w, i);
    assert s[i..i + |p|] == w[..|p|];
    assert OccursAt(s, p, i);
  }

  /** "nop" and "noo" add nothing to the stop-word list: each contains "no". */
  lemma RedundantStopWords(s: string)
    ensures AnyContained(EmptyComments, s) == AnyContained(["nil", "na", "null", "no"], s)
  {
    var short: seq<string> := ["nil", "na", "null", "no"];
    if Contains(s, "nop") {
      PrefixOccurs(s, "nop", "no");
      assert Contains(s, short[3]);
    }
    if Contains(s, "noo") {
      PrefixOccurs(s, "noo", "no");
      assert Contains(s, short[3]);
    }
    if AnyContained(short, s) {
      var k :| 0 <= k < |short| && Contains(s, short[k]);
      assert EmptyComments[k] == short[k];
    }
  }

  /** The stop-word test is on substrings of the lower-cased remark, not on
      words: "I KNOW" counts as no comment because "know" contains "no". */
  lemma SubstringNotWord()
    ensures MapTopic(None, "I KNOW") == NoSuggestion
  {
    var lowered := Lower("I KNOW");
    assert lowered == "i know";
    assert OccursAt(lowered, EmptyComments[3], 3);
  }

  /** The remark test ignores case: two remarks that agree letter by letter
      once lower-cased resolve alike when no id is present. */
  lemma CaseInsensitive(s: string, t: string)
    requires |s| == |t|
    requires forall i :: 0 <= i < |s| ==> LowerChar(s[i]) == LowerChar(t[i])
    ensures MapTopic(None, s) == MapTopic(None, t)
  {
    assert Lower(s) == Lower(t);
  }
}
