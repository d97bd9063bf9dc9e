/** The tables the pipeline passes between its stages, one datatype per
    row kind. A pandas DataFrame is a sequence of these rows. */
module Records {
  import opened Wrappers

  /** The topic id the model gives to documents it leaves unclustered. */
  const Outlier: int := -1

  /** One survey answer as read from the raw survey table. */
  datatype SurveyRow = SurveyRow(region: string, group: string, question: string, response: string)

  /** A survey answer with the topic the model assigned to it and the
      model's confidence; -1 is the outlier topic. The probability is only
      ever compared, never computed with. */
  datatype Doc = Doc(row: SurveyRow, topic: int, prob: real)

  /** A row of the topic model's own topic table (`get_topic_info`). */
  datatype TopicRow = TopicRow(topic: int, count: int)

  /** A keyword of a topic with its score (`get_topic`). */
  datatype WordScore = WordScore(word: string, score: real)

  /** A row of the `Topic, Top_Words, Count` table; a missing keyword
      string is `None`. */
  datatype TopicInfo = TopicInfo(topic: int, topWords: Option<string>, count: int)

  /** A row of the `Topic, Summary` table. */
  datatype Summary = Summary(topic: int, summary: string)

  /** A row of the representative-responses table. */
  datatype RepRow = RepRow(topic: int, response: string, probability: real)

  /** The column of topics of a table. */
  function Topics(docs: seq<Doc>): (ts: seq<int>)
    ensures |ts| == |docs| && forall i :: 0 <= i < |docs| ==> ts[i] == docs[i].topic
  {
    seq(|docs|, i requires 0 <= i < |docs| => docs[i].topic)
  }

  /** The survey columns of a table, without topic and probability. */
  function SurveyRows(docs: seq<Doc>): (rows: seq<SurveyRow>)
    ensures |rows| == |docs| && forall i :: 0 <= i < |docs| ==> rows[i] == docs[i].row
  {
    seq(|docs|, i requires 0 <= i < |docs| => docs[i].row)
  }

  /** The column of probabilities of a table. */
  function Probs(docs: seq<Doc>): (ps: seq<real>)
    ensures |ps| == |docs| && forall i :: 0 <= i < |docs| ==> ps[i] == docs[i].prob
  {
    seq(|docs|, i requires 0 <= i < |docs| => docs[i].prob)
  }

  /** The column of responses of a table. */
  function Responses(docs: seq<Doc>): (rs: seq<string>)
    ensures |rs| == |docs| && forall i :: 0 <= i < |docs| ==> rs[i] == docs[i].row.response
  {
    seq(|docs|, i requires 0 <= i < |docs| => docs[i].row.response)
  }
}
