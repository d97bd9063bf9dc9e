/** The post-processing stage: the topic table with its keywords, the
    topic columns joined onto the survey rows, and the per-topic summaries.
    The topic model itself is not part of this model; what it returns
    (topic ids, probabilities, its topic table and its keyword lists) is
    taken as input. */
module PostProcess {
  import opened Wrappers
  import opened Text
  import opened Records
  import opened Frame

  /** `[word for word, _ in words[:n]]`: the first n keywords, scores
      dropped (a negative n drops that many from the end). */
  function FirstWords(words: seq<WordScore>, n: int): (ws: seq<string>)
    ensures |ws| == HeadLength(n, |words|)
    ensures forall i :: 0 <= i < |ws| ==> ws[i] == words[i].word
  {
    var k := HeadLength(n, |words|);
    seq(k, i requires 0 <= i < k => words[i].word)
  }

  /** The keyword string of a topic, or `None` when the model has no
      keyword list for it (`get_topic` answers `False`) or an empty one. */
  function TopWordsOf(model: map<int, seq<WordScore>>, topic: int, topN: int): (r: Option<string>)
    ensures r.Some? <==> topic in model && |model[topic]| > 0
    ensures r.Some? ==> r.value == Join(FirstWords(model[topic], topN), Comma)
  {
    if topic in model && |model[topic]| > 0 then Some(Join(FirstWords(model[topic], topN), Comma))
    else None
  }

  /** `topic_info[topic_info.Topic != -1]`. */
  function WithoutOutliers(table: seq<TopicRow>): (r: seq<TopicRow>)
    ensures forall i :: 0 <= i < |r| ==> r[i].topic != Outlier
    ensures forall row :: row in r <==> row in table && row.topic != Outlier
  {
    if table == [] then []
    else
      var init := table[..|table| - 1];
      var last := table[|table| - 1];
      assert table == init + [last];
      WithoutOutliers(init) + (if last.topic == Outlier then [] else [last])
  }

  /** The filter keeps the other rows in their order: it distributes over
      concatenation (and by its definition keeps a single row exactly when
      it is not the outlier topic). */
  lemma {:induction false} WithoutOutliersAppend(a: seq<TopicRow>, b: seq<TopicRow>)
    ensures WithoutOutliers(a + b) == WithoutOutliers(a) + WithoutOutliers(b)
    decreases |b|
  {
    if b != [] {
      var init := b[..|b| - 1];
      assert a + b == (a + init) + [b[|b| - 1]];
      assert b == init + [b[|b| - 1]];
      WithoutOutliersAppend(a, init);
    } else {
      assert a + b == a;
    }
  }

  /** `extract_topic_info`: the model's topic table without the outlier
      row, in the same order, each row with its keyword string and with the
      model's own count. The loop fills the topic-to-keywords dictionary. */
  method ExtractTopicInfo(table: seq<TopicRow>, model: map<int, seq<WordScore>>, topN: int)
    returns (info: seq<TopicInfo>)
    ensures |info| == |WithoutOutliers(table)|
    ensures forall i :: 0 <= i < |info| ==>
      && info[i].topic == WithoutOutliers(table)[i].topic
      && info[i].count == WithoutOutliers(table)[i].count
      && info[i].topWords == TopWordsOf(model, info[i].topic, topN)
    ensures forall i :: 0 <= i < |info| ==> info[i].topic != Outlier
  {
    var kept := WithoutOutliers(table);
    var topicWords: map<int, string> := map[];
    var i := 0;
    while i < |kept|
      invariant 0 <= i <= |kept|
      invariant forall t :: t in topicWords ==> TopWordsOf(model, t, topN) == Some(topicWords[t])
      invariant forall j :: 0 <= j < i && TopWordsOf(model, kept[j].topic, topN).Some? ==> kept[j].topic in topicWords
    {
      var topic := kept[i].topic;
      if topic in model && |model[topic]| > 0 {
        var words := FirstWords(model[topic], topN);
        topicWords := topicWords[topic := Join(words, Comma)];
      }
      i := i + 1;
    }
    info := seq(|kept|, j requires 0 <= j < |kept| =>
      TopicInfo(kept[j].topic,
                if kept[j].topic in topicWords then Some(topicWords[kept[j].topic]) else None,
                kept[j].count));
  }

  /** The error pandas raises when a column is given the wrong number of
      values. */
  function LengthMismatch(values: nat, index: nat): string {
    "Length of values (" + IntToString(values) + ") does not match length of index ("
      + IntToString(index) + ")"
  }

  /** `assign_topics_to_docs`: a copy of the table with a topic and a
      probability on every row; the topic column is set first, so a wrong
      number of topics is reported before a wrong number of
      probabilities. */
  function AssignTopicsToDocs(rows: seq<SurveyRow>, topics: seq<int>, probs: seq<real>): (r: Result<seq<Doc>>)
    ensures r.Ok? <==> |topics| == |rows| && |probs| == |rows|
    ensures |topics| != |rows| ==> r == Err(LengthMismatch(|topics|, |rows|))
    ensures |topics| == |rows| && |probs| != |rows| ==> r == Err(LengthMismatch(|probs|, |rows|))
    ensures r.Ok? ==> |r.value| == |rows| && forall i :: 0 <= i < |rows| ==>
      r.value[i] == Doc(rows[i], topics[i], probs[i])
  {
    if |topics| != |rows| then Err(LengthMismatch(|topics|, |rows|))
    else if |probs| != |rows| then Err(LengthMismatch(|probs|, |rows|))
    else Ok(seq(|rows|, i requires 0 <= i < |rows| => Doc(rows[i], topics[i], probs[i])))
  }

  /** Reading the columns back from the joined table gives the survey rows,
      the topics and the probabilities that went in. */
  lemma AssignRoundTrip(rows: seq<SurveyRow>, topics: seq<int>, probs: seq<real>)
    requires |topics| == |rows| && |probs| == |rows|
    ensures AssignTopicsToDocs(rows, topics, probs).Ok?
    ensures SurveyRows(AssignTopicsToDocs(rows, topics, probs).value) == rows
    ensures Topics(AssignTopicsToDocs(rows, topics, probs).value) == topics
    ensures Probs(AssignTopicsToDocs(rows, topics, probs).value) == probs
  {
    var docs := AssignTopicsToDocs(rows, topics, probs).value;
    assert SurveyRows(docs) == rows;
    assert Topics(docs) == topics;
    assert Probs(docs) == probs;
  }

  const SummarySeparator: string := " | "

  /** Number of responses a summary quotes. */
  const SummarySize: nat := 3

  /** s summarises its topic: its text is the " | "-join of the responses of
      a top-3 selection of that topic's rows by probability. */
  ghost predicate IsSummaryOf(docs: seq<Doc>, s: Summary) {
    exists chosen :: IsTopK(OfTopic(docs, s.topic), SummarySize, chosen)
      && s.summary == Join(Responses(chosen), SummarySeparator)
  }

  /** The summary of one topic: the " | "-join of the responses of its
      three most probable rows. */
  function SummaryOf(docs: seq<Doc>, t: int): (s: Summary)
    ensures s.topic == t
    ensures OfTopic(docs, t) == [] ==> s.summary == ""
  {
    var topDocs := TopK(OfTopic(docs, t), SummarySize);
    Summary(t, Join(Responses(topDocs), SummarySeparator))
  }

  lemma SummaryOfIsSummary(docs: seq<Doc>, t: int)
    ensures IsSummaryOf(docs, SummaryOf(docs, t))
  {
    var topDocs := TopK(OfTopic(docs, t), SummarySize);
    assert IsTopK(OfTopic(docs, t), SummarySize, topDocs);
  }

  /** The topic column of a summary table. */
  function SummaryTopics(summaries: seq<Summary>): (ts: seq<int>)
    ensures |ts| == |summaries| && forall i :: 0 <= i < |ts| ==> ts[i] == summaries[i].topic
  {
    seq(|summaries|, i requires 0 <= i < |summaries| => summaries[i].topic)
  }

  lemma SummaryTopicsAppend(summaries: seq<Summary>, s: Summary)
    ensures SummaryTopics(summaries + [s]) == SummaryTopics(summaries) + [s.topic]
  {
  }

  /** The summaries of the topics ts in order, the outlier topic skipped. */
  function SummariesOf(docs: seq<Doc>, ts: seq<int>): (summaries: seq<Summary>)
  {
    if ts == [] then []
    else
      var last := ts[|ts| - 1];
      SummariesOf(docs, ts[..|ts| - 1]) + (if last == Outlier then [] else [SummaryOf(docs, last)])
  }

  lemma SummariesOfStep(docs: seq<Doc>, ts: seq<int>, i: nat)
    requires i < |ts|
    ensures SummariesOf(docs, ts[..i + 1])
      == SummariesOf(docs, ts[..i]) + (if ts[i] == Outlier then [] else [SummaryOf(docs, ts[i])])
  {
    assert ts[..i + 1][..i] == ts[..i];
  }

  /** The summarised topics are ts without the outlier, in order. */
  lemma {:induction false} SummariesOfTopics(docs: seq<Doc>, ts: seq<int>)
    ensures SummaryTopics(SummariesOf(docs, ts)) == DropOutliers(ts)
  {
    if ts != [] {
      var init, last := ts[..|ts| - 1], ts[|ts| - 1];
      SummariesOfTopics(docs, init);
      DropOutliersStep(ts, |ts| - 1);
      assert ts[..|ts|] == ts;
      if last != Outlier {
        SummaryTopicsAppend(SummariesOf(docs, init), SummaryOf(docs, last));
      }
    }
  }

  /** Each summary of the list summarises its topic. */
  lemma {:induction false} SummariesOfAreSummaries(docs: seq<Doc>, ts: seq<int>)
    ensures forall i :: 0 <= i < |SummariesOf(docs, ts)| ==> IsSummaryOf(docs, SummariesOf(docs, ts)[i])
  {
    if ts != [] {
      var init, last := ts[..|ts| - 1], ts[|ts| - 1];
      SummariesOfAreSummaries(docs, init);
      if last != Outlier {
        SummaryOfIsSummary(docs, last);
      }
    }
  }

  /** `summarize_topics`: one summary per topic id other than the outlier,
      in order of first appearance in the table. */
  method SummarizeTopics(docs: seq<Doc>) returns (summaries: seq<Summary>)
    ensures SummaryTopics(summaries) == DropOutliers(Unique(Topics(docs)))
    ensures forall i :: 0 <= i < |summaries| ==> IsSummaryOf(docs, summaries[i])
  {
    var ids := Unique(Topics(docs));
    summaries := [];
    var i := 0;
    while i < |ids|
      invariant 0 <= i <= |ids|
      invariant summaries == SummariesOf(docs, ids[..i])
    {
      var topicId := ids[i];
      SummariesOfStep(docs, ids, i);
      if topicId != Outlier {
        var s := SummaryOf(docs, topicId);
        summaries := summaries + [s];
      }
      i := i + 1;
    }
    assert ids[..|ids|] == ids;
    SummariesOfTopics(docs, ids);
    SummariesOfAreSummaries(docs, ids);
  }

  /** The summaries are one per topic id: no topic is summarised twice, and
      every topic other than the outlier that occurs in the table is. */
  lemma SummaryTopicsDistinct(docs: seq<Doc>)
    ensures Distinct(DropOutliers(Unique(Topics(docs))))
    ensures forall t :: t in DropOutliers(Unique(Topics(docs))) <==> t in Topics(docs) && t != Outlier
  {
    DropOutliersDistinct(Unique(Topics(docs)));
  }

  /** Without outlier rows there are as many summaries as distinct topics. */
  lemma {:induction false} SummaryCountWithoutOutliers(ts: seq<int>)
    requires Outlier !in ts
    ensures DropOutliers(ts) == ts
  {
    if ts != [] {
      var init := ts[..|ts| - 1];
      assert ts == init + [ts[|ts| - 1]];
      SummaryCountWithoutOutliers(init);
    }
  }

  /** A summary quotes at most three responses, all of its own topic, and
      none of that topic's unquoted responses has a higher probability. */
  lemma SummaryQuotesTopResponses(docs: seq<Doc>, s: Summary, chosen: seq<Doc>)
    requires IsTopK(OfTopic(docs, s.topic), SummarySize, chosen)
    ensures |chosen| <= SummarySize
    ensures |chosen| == SummarySize || |chosen| == multiset(Topics(docs))[s.topic]
    ensures forall c :: c in chosen ==> c.topic == s.topic && c in docs
  {
    OfTopicSize(docs, s.topic);
    FromTopic(docs, s.topic, chosen);
  }
}
