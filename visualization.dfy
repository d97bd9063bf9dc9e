/** The visualiser's data handling: the keyword strings of the topic table
    parsed back into per-topic word-weight dictionaries, and the word
    clouds drawn from them, one per topic other than the outlier. The
    drawing itself and the files written are not modelled. */
module Visualization {
  import opened Wrappers
  import opened Text
  import opened Records
  import opened Frame
  import PostProcess

  /** `{word: 1 for word in s.split(', ')}`: every keyword with weight one;
      a repeated keyword is one key. */
  function WordWeights(topWords: string): (weights: map<string, int>)
    ensures forall w :: w in weights <==> w in Split(topWords, Comma)
    ensures forall w :: w in weights ==> weights[w] == 1
    ensures |weights| >= 1
  {
    var pieces := Split(topWords, Comma);
    var weights := map w | w in pieces :: 1;
    assert pieces[0] in weights;
    weights
  }

  /** Splitting a keyword string made by joining keywords with ", " gives
      back exactly those keywords as keys, when none of them contains the
      separator. */
  lemma ParseJoinRoundTrip(words: seq<string>)
    requires |words| >= 1
    requires forall i :: 0 <= i < |words| ==> !Occurs(Comma, words[i])
    ensures WordWeights(Join(words, Comma)).Keys == set w | w in words
  {
    SplitJoinRoundTrip(words);
  }

  /** The keyword string of a topic that post-processing produced, with at
      least one keyword kept, parses back to the keywords it joined. */
  lemma ExtractThenParse(model: map<int, seq<WordScore>>, topic: int, topN: int)
    requires PostProcess.TopWordsOf(model, topic, topN).Some?
    requires HeadLength(topN, |model[topic]|) >= 1
    requires forall i :: 0 <= i < HeadLength(topN, |model[topic]|) ==> !Occurs(Comma, model[topic][i].word)
    ensures WordWeights(PostProcess.TopWordsOf(model, topic, topN).value).Keys
      == set w | w in PostProcess.FirstWords(model[topic], topN)
  {
    ParseJoinRoundTrip(PostProcess.FirstWords(model[topic], topN));
  }

  /** A Python dictionary from topic id to word weights: its keys in
      insertion order, and the values. */
  datatype WordTable = WordTable(order: seq<int>, weights: map<int, map<string, int>>)

  predicate ValidTable(table: WordTable) {
    Distinct(table.order) && table.weights.Keys == set t | t in table.order
  }

  /** What splitting a missing keyword string (read back as a float NaN)
      raises. */
  const MissingWordsError: string := "'float' object has no attribute 'split'"

  function InfoTopics(info: seq<TopicInfo>): (ts: seq<int>)
    ensures |ts| == |info| && forall i :: 0 <= i < |info| ==> ts[i] == info[i].topic
  {
    seq(|info|, i requires 0 <= i < |info| => info[i].topic)
  }

  predicate AllPresent(info: seq<TopicInfo>) {
    forall i :: 0 <= i < |info| ==> info[i].topWords.Some?
  }

  /** The dictionary values after reading the rows in order: each row sets
      its topic's entry, so the last row of a topic wins. */
  function TopicWords(info: seq<TopicInfo>): (m: map<int, map<string, int>>)
    requires AllPresent(info)
    ensures forall t :: t in m <==> t in InfoTopics(info)
  {
    if info == [] then map[]
    else
      var init := info[..|info| - 1];
      var last := info[|info| - 1];
      assert InfoTopics(info) == InfoTopics(init) + [last.topic];
      TopicWords(init)[last.topic := WordWeights(last.topWords.value)]
  }

  /** A topic's entry is the parse of the keyword string of its last
      row. */
  lemma {:induction false} LastRowWins(info: seq<TopicInfo>, i: nat)
    requires AllPresent(info)
    requires i < |info|
    requires forall j :: i < j < |info| ==> info[j].topic != info[i].topic
    ensures TopicWords(info)[info[i].topic] == WordWeights(info[i].topWords.value)
  {
    if i < |info| - 1 {
      var init := info[..|info| - 1];
      LastRowWins(init, i);
    }
  }

  lemma TopicWordsStep(info: seq<TopicInfo>, i: nat)
    requires i < |info| && AllPresent(info[..i + 1])
    ensures AllPresent(info[..i])
    ensures TopicWords(info[..i + 1])
      == TopicWords(info[..i])[info[i].topic := WordWeights(info[i].topWords.value)]
  {
    assert info[..i + 1][..i] == info[..i];
  }

  lemma UniqueStep(ts: seq<int>, i: nat)
    requires i < |ts|
    ensures Unique(ts[..i + 1]) == if ts[i] in ts[..i] then Unique(ts[..i]) else Unique(ts[..i]) + [ts[i]]
  {
    assert ts[..i + 1][..i] == ts[..i];
  }

  /** One row of the parse loop keeps the dictionary equal to the one
      read from the rows so far. */
  lemma ParseStep(info: seq<TopicInfo>, i: nat, order: seq<int>, words: map<int, map<string, int>>)
    requires i < |info| && AllPresent(info[..i]) && info[i].topWords.Some?
    requires order == Unique(InfoTopics(info[..i])) && words == TopicWords(info[..i])
    ensures AllPresent(info[..i + 1])
    ensures (if info[i].topic in words then order else order + [info[i].topic])
      == Unique(InfoTopics(info[..i + 1]))
    ensures words[info[i].topic := WordWeights(info[i].topWords.value)] == TopicWords(info[..i + 1])
  {
    var done, next := info[..i], info[..i + 1];
    forall j | 0 <= j < |next| ensures next[j].topWords.Some? {
      if j < i {
        assert next[j] == done[j];
      }
    }
    var ts := InfoTopics(info);
    assert ts[..i] == InfoTopics(info[..i]);
    assert ts[..i + 1] == InfoTopics(info[..i + 1]);
    UniqueStep(ts, i);
    TopicWordsStep(info, i);
    assert info[i].topic in words <==> ts[i] in ts[..i];
  }

  /** The loop of `create_all_visualizations` that turns the rows of the
      topic table into the topic-to-word-weights dictionary. It fails on
      the first row whose keyword string is missing. */
  method ParseTopWords(info: seq<TopicInfo>) returns (r: Result<WordTable>)
    ensures r.Err? <==> !AllPresent(info)
    ensures r.Err? ==> r.message == MissingWordsError
    ensures r.Ok? ==> r.value == WordTable(Unique(InfoTopics(info)), TopicWords(info))
  {
    var order: seq<int> := [];
    var words: map<int, map<string, int>> := map[];
    var i := 0;
    while i < |info|
      invariant 0 <= i <= |info|
      invariant AllPresent(info[..i])
      invariant order == Unique(InfoTopics(info[..i]))
      invariant words == TopicWords(info[..i])
    {
      if info[i].topWords.None? {
        return Err(MissingWordsError);
      }
      var topic := info[i].topic;
      ParseStep(info, i, order, words);
      if topic !in words {
        order := order + [topic];
      }
      words := words[topic := WordWeights(info[i].topWords.value)];
      i := i + 1;
    }
    assert info[..i] == info;
    return Ok(WordTable(order, words));
  }

  /** A successful parse is a well-formed dictionary, and every value is a
      non-empty frequency map of weight-one words, so the word cloud is
      never asked to draw from no words. */
  lemma ParsedTableWellFormed(info: seq<TopicInfo>)
    requires AllPresent(info)
    ensures ValidTable(WordTable(Unique(InfoTopics(info)), TopicWords(info)))
    ensures forall t :: t in TopicWords(info) ==> |TopicWords(info)[t]| >= 1
  {
    var m := TopicWords(info);
    forall t | t in m ensures |m[t]| >= 1 {
      var i := LastIndexOf(info, t);
      LastRowWins(info, i);
    }
  }

  /** The last row of a topic that occurs. */
  function LastIndexOf(info: seq<TopicInfo>, t: int): (i: nat)
    requires t in InfoTopics(info)
    ensures i < |info| && info[i].topic == t
    ensures forall j :: i < j < |info| ==> info[j].topic != t
  {
    if info[|info| - 1].topic == t then |info| - 1
    else
      assert InfoTopics(info) == InfoTopics(info[..|info| - 1]) + [info[|info| - 1].topic];
      LastIndexOf(info[..|info| - 1], t)
  }

  /** The name a topic's word cloud is saved under. */
  function WordcloudName(topic: int): (name: string)
    ensures |name| > 16 && name[..16] == "wordcloud_topic_" && name[16..] == IntToString(topic)
  {
    var name := "wordcloud_topic_" + IntToString(topic);
    assert name[16..] == IntToString(topic);
    name
  }

  /** Different topics get different file names. */
  lemma WordcloudNameInjective(a: int, b: int)
    requires WordcloudName(a) == WordcloudName(b)
    ensures a == b
  {
    var prefix := "wordcloud_topic_";
    assert IntToString(a) == WordcloudName(a)[|prefix|..];
    assert IntToString(b) == WordcloudName(b)[|prefix|..];
    IntToStringInjective(a, b);
  }

  /** The clouds drawn for topics ts: each name with the frequencies the
      cloud is drawn from. */
  function Clouds(table: WordTable, ts: seq<int>): (clouds: seq<(string, map<string, int>)>)
    requires forall t :: t in ts ==> t in table.weights
    ensures |clouds| == |ts|
  {
    if ts == [] then []
    else Clouds(table, ts[..|ts| - 1]) + [(WordcloudName(ts[|ts| - 1]), table.weights[ts[|ts| - 1]])]
  }

  lemma CloudsAppend(table: WordTable, ts: seq<int>, t: int)
    requires forall u :: u in ts ==> u in table.weights
    requires t in table.weights
    ensures Clouds(table, ts + [t]) == Clouds(table, ts) + [(WordcloudName(t), table.weights[t])]
  {
    assert (ts + [t])[..|ts|] == ts;
  }

  /** Every id of the dictionary's key list has an entry. */
  lemma KeysHaveEntries(table: WordTable, i: nat)
    requires ValidTable(table) && i <= |table.order|
    ensures forall u :: u in DropOutliers(table.order[..i]) ==> u in table.weights
  {
    forall u | u in DropOutliers(table.order[..i]) ensures u in table.weights {
      assert u in table.order[..i];
      assert u in table.order;
    }
  }

  /** One key of the loop adds its cloud unless it is the outlier. */
  lemma CloudStep(table: WordTable, i: nat)
    requires ValidTable(table) && i < |table.order|
    ensures table.order[i] in table.weights
    ensures forall u :: u in DropOutliers(table.order[..i]) ==> u in table.weights
    ensures forall u :: u in DropOutliers(table.order[..i + 1]) ==> u in table.weights
    ensures table.order[i] == Outlier ==>
      Clouds(table, DropOutliers(table.order[..i + 1])) == Clouds(table, DropOutliers(table.order[..i]))
    ensures table.order[i] != Outlier ==>
      Clouds(table, DropOutliers(table.order[..i + 1]))
      == Clouds(table, DropOutliers(table.order[..i])) + [(WordcloudName(table.order[i]), table.weights[table.order[i]])]
  {
    var t := table.order[i];
    assert t in table.order;
    KeysHaveEntries(table, i);
    KeysHaveEntries(table, i + 1);
    DropOutliersStep(table.order, i);
    var before := DropOutliers(table.order[..i]);
    if t == Outlier {
      assert DropOutliers(table.order[..i + 1]) == before;
    } else {
      assert DropOutliers(table.order[..i + 1]) == before + [t];
      CloudsAppend(table, before, t);
    }
  }

  /** `generate_wordclouds`: one cloud per topic key other than the outlier,
      in the dictionary's order, each drawn from that topic's words. */
  method GenerateWordclouds(table: WordTable) returns (clouds: seq<(string, map<string, int>)>)
    requires ValidTable(table)
    ensures clouds == Clouds(table, DropOutliers(table.order))
  {
    clouds := [];
    var i := 0;
    while i < |table.order|
      invariant 0 <= i <= |table.order|
      invariant clouds == Clouds(table, DropOutliers(table.order[..i]))
    {
      var topic := table.order[i];
      CloudStep(table, i);
      if topic == Outlier {
        i := i + 1;
        continue;
      }
      clouds := clouds + [(WordcloudName(topic), table.weights[topic])];
      i := i + 1;
    }
    assert table.order[..i] == table.order;
  }

  /** The i-th cloud is the one of the i-th topic. */
  lemma {:induction false} CloudAt(table: WordTable, ts: seq<int>, i: nat)
    requires forall t :: t in ts ==> t in table.weights
    requires i < |ts|
    ensures Clouds(table, ts)[i] == (WordcloudName(ts[i]), table.weights[ts[i]])
  {
    if i < |ts| - 1 {
      CloudAt(table, ts[..|ts| - 1], i);
    }
  }

  /** Names given topic by topic name exactly those topics, and distinct
      topics get distinct names. */
  lemma NamesOfTopics(ts: seq<int>, names: seq<string>)
    requires |names| == |ts|
    requires forall i :: 0 <= i < |ts| ==> names[i] == WordcloudName(ts[i])
    ensures forall t :: WordcloudName(t) in names <==> t in ts
    ensures Distinct(ts) ==> Distinct(names)
  {
    forall t ensures WordcloudName(t) in names <==> t in ts {
      if t in ts {
        var i :| 0 <= i < |ts| && ts[i] == t;
        assert names[i] == WordcloudName(t);
      }
      if WordcloudName(t) in names {
        var i :| 0 <= i < |ts| && names[i] == WordcloudName(t);
        WordcloudNameInjective(ts[i], t);
      }
    }
    if Distinct(ts) {
      forall i, j | 0 <= i < j < |ts| ensures names[i] != names[j] {
        if names[i] == names[j] {
          WordcloudNameInjective(ts[i], ts[j]);
        }
      }
    }
  }

  /** Exactly the topics other than the outlier get a cloud, each under a
      name no other cloud has. */
  lemma CloudsOnePerTopic(table: WordTable)
    requires ValidTable(table)
    ensures forall t :: (WordcloudName(t) in Firsts(Clouds(table, DropOutliers(table.order)))
      <==> t in table.weights && t != Outlier)
    ensures Distinct(Firsts(Clouds(table, DropOutliers(table.order))))
  {
    var ts := DropOutliers(table.order);
    var names := Firsts(Clouds(table, ts));
    DropOutliersDistinct(table.order);
    forall i | 0 <= i < |ts| ensures names[i] == WordcloudName(ts[i]) {
      CloudAt(table, ts, i);
    }
    NamesOfTopics(ts, names);
  }
}
