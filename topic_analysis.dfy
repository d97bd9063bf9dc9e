/** The analysis stage over the table of survey rows with their topics:
    the region-by-topic contingency table and its row normalisation, the
    size and response diversity of each topic, and the representative
    responses of each topic. Plotting and file output are not modelled. */
module TopicAnalysis {
  import opened Records
  import opened Frame

  /** The survey column a contingency table is built over: `region` here,
      `group` as well in the visualiser. */
  datatype Field = Region | Group

  function KeyOf(d: Doc, f: Field): string {
    match f
    case Region => d.row.region
    case Group => d.row.group
  }

  /** The column `df[f]`. */
  function Keys(docs: seq<Doc>, f: Field): (ks: seq<string>)
    ensures |ks| == |docs| && forall i :: 0 <= i < |docs| ==> ks[i] == KeyOf(docs[i], f)
  {
    seq(|docs|, i requires 0 <= i < |docs| => KeyOf(docs[i], f))
  }

  /** The (key, topic) pair of every row, the pairs `pd.crosstab` counts. */
  function Pairs(docs: seq<Doc>, f: Field): (ps: seq<(string, int)>)
    ensures |ps| == |docs| && forall i :: 0 <= i < |docs| ==> ps[i] == (KeyOf(docs[i], f), docs[i].topic)
  {
    seq(|docs|, i requires 0 <= i < |docs| => (KeyOf(docs[i], f), docs[i].topic))
  }

  function Sum(xs: seq<nat>): nat {
    if xs == [] then 0 else xs[0] + Sum(xs[1..])
  }

  /** The cells of row `key` of the contingency table of ps, one per
      column value in us. */
  function RowCounts(ps: seq<(string, int)>, key: string, us: seq<int>): (row: seq<nat>)
    ensures |row| == |us| && forall j :: 0 <= j < |us| ==> row[j] == multiset(ps)[(key, us[j])]
  {
    if us == [] then [] else [multiset(ps)[(key, us[0])]] + RowCounts(ps, key, us[1..])
  }

  lemma {:induction false} RowCountsAppend(ps: seq<(string, int)>, p: (string, int), key: string, us: seq<int>)
    requires Distinct(us)
    ensures Sum(RowCounts(ps + [p], key, us)) == Sum(RowCounts(ps, key, us)) + (if p.0 == key && p.1 in us then 1 else 0)
  {
    if us != [] {
      RowCountsAppend(ps, p, key, us[1..]);
      assert us[0] !in us[1..] by {
        forall j | 0 <= j < |us[1..]| ensures us[1..][j] != us[0] {
          assert us[1..][j] == us[j + 1];
        }
      }
      assert p.1 in us <==> p.1 == us[0] || p.1 in us[1..];
    }
  }

  lemma {:induction false} RowCountsOfEmpty(key: string, us: seq<int>)
    ensures Sum(RowCounts([], key, us)) == 0
  {
    if us != [] {
      RowCountsOfEmpty(key, us[1..]);
    }
  }

  /** When the columns cover every second component once, the cells of a
      row add up to the number of pairs with that first component. */
  lemma {:induction false} RowCountsSum(ps: seq<(string, int)>, key: string, us: seq<int>)
    requires Distinct(us)
    requires forall i :: 0 <= i < |ps| ==> ps[i].1 in us
    ensures Sum(RowCounts(ps, key, us)) == multiset(Firsts(ps))[key]
  {
    if ps == [] {
      RowCountsOfEmpty(key, us);
    } else {
      var init := ps[..|ps| - 1];
      var last := ps[|ps| - 1];
      assert ps == init + [last];
      assert Firsts(ps) == Firsts(init) + [last.0];
      RowCountsSum(init, key, us);
      RowCountsAppend(init, last, key, us);
    }
  }

  /** The topic columns of the contingency table (pandas sorts them; the
      sums below do not depend on their order). */
  function Columns(docs: seq<Doc>): (cs: seq<int>)
    ensures Distinct(cs) && forall t :: t in cs <==> t in Topics(docs)
  {
    Unique(Topics(docs))
  }

  /** Row `key` of `pd.crosstab(df[f], df['Topic'])`: for each topic
      column, the number of rows with that key and that topic. */
  function CrosstabRow(docs: seq<Doc>, f: Field, key: string): (row: seq<nat>)
    ensures |row| == |Columns(docs)|
    ensures forall j :: 0 <= j < |row| ==> row[j] == multiset(Pairs(docs, f))[(key, Columns(docs)[j])]
  {
    RowCounts(Pairs(docs, f), key, Columns(docs))
  }

  /** The row sums `topic_region.sum(axis=1)` are the number of rows with
      that key, at least one for every key the table has, so the
      normalising division never divides by zero. */
  lemma CrosstabRowSum(docs: seq<Doc>, f: Field, key: string)
    ensures Sum(CrosstabRow(docs, f, key)) == multiset(Keys(docs, f))[key]
    ensures key in Keys(docs, f) ==> Sum(CrosstabRow(docs, f, key)) >= 1
  {
    var ps := Pairs(docs, f);
    forall i | 0 <= i < |ps| ensures ps[i].1 in Columns(docs) {
      assert Topics(docs)[i] == ps[i].1;
    }
    RowCountsSum(ps, key, Columns(docs));
    assert Firsts(ps) == Keys(docs, f);
  }

  function RealSum(xs: seq<real>): real {
    if xs == [] then 0.0 else xs[0] + RealSum(xs[1..])
  }

  /** A count over a larger count is a proportion. */
  lemma Proportion(a: nat, b: nat)
    requires a <= b && b > 0
    ensures 0.0 <= a as real / b as real <= 1.0
    ensures a > 0 ==> 0.0 < a as real / b as real
    ensures a == b ==> a as real / b as real == 1.0
  {
    var q := a as real / b as real;
    assert q * b as real == a as real;
  }

  /** Each cell of a row divided by the given total. */
  function Shares(row: seq<nat>, total: nat): (r: seq<real>)
    requires total > 0
    ensures |r| == |row| && forall j :: 0 <= j < |row| ==> r[j] == row[j] as real / total as real
  {
    if row == [] then [] else [row[0] as real / total as real] + Shares(row[1..], total)
  }

  lemma {:induction false} SharesSum(row: seq<nat>, total: nat)
    requires total > 0
    ensures RealSum(Shares(row, total)) == Sum(row) as real / total as real
  {
    if row != [] {
      SharesSum(row[1..], total);
      AddShares(row[0] as real, Sum(row[1..]) as real, total as real);
    }
  }

  /** Shares of one total add up like the counts they come from. */
  lemma AddShares(a: real, b: real, t: real)
    requires t > 0.0
    ensures a / t + b / t == (a + b) / t
  {
    assert (a / t) * t == a && (b / t) * t == b;
    assert (a / t + b / t) * t == a + b;
  }

  /** Row `key` of `topic_region.div(topic_region.sum(axis=1), axis=0)`,
      for a key the table has. */
  function NormalisedRow(docs: seq<Doc>, f: Field, key: string): (r: seq<real>)
    requires key in Keys(docs, f)
    ensures |r| == |Columns(docs)|
    ensures forall j :: 0 <= j < |r| ==> 0.0 <= r[j] <= 1.0
  {
    CrosstabRowSum(docs, f, key);
    var row := CrosstabRow(docs, f, key);
    SharesBounded(row, Sum(row));
    Shares(row, Sum(row))
  }

  /** No cell exceeds its row's sum. */
  lemma {:induction false} SharesBounded(row: seq<nat>, total: nat)
    requires total > 0 && total == Sum(row)
    ensures forall j :: 0 <= j < |Shares(row, total)| ==> 0.0 <= Shares(row, total)[j] <= 1.0
  {
    forall j | 0 <= j < |row| ensures 0.0 <= Shares(row, total)[j] <= 1.0 {
      CellBelowSum(row, j);
      Proportion(row[j], total);
    }
  }

  lemma {:induction false} CellBelowSum(row: seq<nat>, j: nat)
    requires j < |row|
    ensures row[j] <= Sum(row)
  {
    if j > 0 {
      CellBelowSum(row[1..], j - 1);
    }
  }

  /** Every row of the normalised table sums to one. */
  lemma NormalisedRowSumsToOne(docs: seq<Doc>, f: Field, key: string)
    requires key in Keys(docs, f)
    ensures RealSum(NormalisedRow(docs, f, key)) == 1.0
  {
    CrosstabRowSum(docs, f, key);
    var row := CrosstabRow(docs, f, key);
    SharesSum(row, Sum(row));
    Proportion(Sum(row), Sum(row));
  }

  /** `df['Topic'].value_counts()`: each topic of the table, the outlier
      topic included, with its number of rows. */
  function TopicSizes(docs: seq<Doc>): (sizes: map<int, nat>)
    ensures forall t :: t in sizes <==> t in Topics(docs)
    ensures forall t :: t in sizes ==> sizes[t] == |OfTopic(docs, t)| && sizes[t] >= 1
  {
    OfTopicSizes(docs);
    map t | t in Topics(docs) :: multiset(Topics(docs))[t]
  }

  lemma OfTopicSizes(docs: seq<Doc>)
    ensures forall t :: |OfTopic(docs, t)| == multiset(Topics(docs))[t]
  {
    forall t {
      OfTopicSize(docs, t);
    }
  }

  /** The sizes of all topics add up to the number of rows. */
  lemma SizesSumToLength(docs: seq<Doc>)
    ensures SumCounts(Topics(docs), Columns(docs)) == |docs|
  {
    CountsSumToLength(Topics(docs), Columns(docs));
  }

  /** Number of distinct values of a list (`nunique`). */
  function DistinctCount(xs: seq<string>): nat {
    |set x | x in xs|
  }

  /** A non-empty list has at least one and at most as many distinct
      values as elements. */
  lemma {:induction false} DistinctCountBounds(xs: seq<string>)
    requires |xs| >= 1
    ensures 1 <= DistinctCount(xs) <= |xs|
  {
    var init := xs[..|xs| - 1];
    var last := xs[|xs| - 1];
    assert xs == init + [last];
    assert (set x | x in xs) == (set x | x in init) + {last};
    if |init| >= 1 {
      DistinctCountBounds(init);
    } else {
      assert (set x | x in init) == {};
    }
  }

  /** `df.groupby('Topic')['response'].nunique()` for one topic. */
  function DistinctResponses(docs: seq<Doc>, t: int): nat {
    DistinctCount(Responses(OfTopic(docs, t)))
  }

  /** A topic of the table has at least one and at most as many distinct
      responses as rows. */
  lemma DistinctResponsesBounds(docs: seq<Doc>, t: int)
    requires t in Topics(docs)
    ensures 1 <= DistinctResponses(docs, t) <= |OfTopic(docs, t)|
  {
    OfTopicSize(docs, t);
    DistinctCountBounds(Responses(OfTopic(docs, t)));
  }

  /** The diversity of a topic of the table: distinct responses over size,
      before rounding. */
  function Diversity(docs: seq<Doc>, t: int): (r: real)
    requires t in Topics(docs)
    ensures 0.0 < r <= 1.0
  {
    DistinctResponsesBounds(docs, t);
    Proportion(DistinctResponses(docs, t), |OfTopic(docs, t)|);
    DistinctResponses(docs, t) as real / |OfTopic(docs, t)| as real
  }

  /** The entry of one topic: its top rows by probability, as many as
      `head(top_n)` keeps of them. */
  ghost predicate IsRepresentative(docs: seq<Doc>, topN: int, entry: (int, seq<Doc>)) {
    var rows := OfTopic(docs, entry.0);
    IsTopK(rows, HeadLength(topN, |rows|), entry.1)
  }

  /** The output rows of one topic's entry. */
  function RowsOf(topic: int, chosen: seq<Doc>): (rows: seq<RepRow>)
    ensures |rows| == |chosen|
    ensures forall i :: 0 <= i < |rows| ==> rows[i] == RepRow(topic, chosen[i].row.response, chosen[i].prob)
  {
    seq(|chosen|, i requires 0 <= i < |chosen| => RepRow(topic, chosen[i].row.response, chosen[i].prob))
  }

  /** The rows of all entries, entry after entry. */
  function Flatten(reps: seq<(int, seq<Doc>)>): seq<RepRow> {
    if reps == [] then []
    else Flatten(reps[..|reps| - 1]) + RowsOf(reps[|reps| - 1].0, reps[|reps| - 1].1)
  }

  lemma FirstsAppend(reps: seq<(int, seq<Doc>)>, entry: (int, seq<Doc>))
    ensures Firsts(reps + [entry]) == Firsts(reps) + [entry.0]
  {
  }

  lemma PrefixStep<T>(xs: seq<T>, i: nat)
    requires i < |xs|
    ensures xs[..i + 1] == xs[..i] + [xs[i]]
  {
  }

  /** The entry of topic t: its rows sorted by probability, cut by
      `head(top_n)`. */
  function EntryOf(docs: seq<Doc>, topN: int, t: int): (entry: (int, seq<Doc>))
    ensures entry.0 == t
    ensures |entry.1| == HeadLength(topN, |OfTopic(docs, t)|)
    ensures forall d :: d in entry.1 ==> d.topic == t && d in docs
  {
    var topicRows := OfTopic(docs, t);
    var chosen := TopK(topicRows, HeadLength(topN, |topicRows|));
    FromTopic(docs, t, chosen);
    (t, chosen)
  }

  /** The entry of a topic holds rows of that topic only, at most top_n of
      them, in non-increasing probability, and no row of the topic it
      leaves out has a higher probability than one it holds. */
  lemma EntryOfIsRepresentative(docs: seq<Doc>, topN: int, t: int)
    ensures IsRepresentative(docs, topN, EntryOf(docs, topN, t))
  {
  }

  /** The entries of the topics ids, in their order. */
  function Entries(docs: seq<Doc>, topN: int, ids: seq<int>): (reps: seq<(int, seq<Doc>)>)
    ensures |reps| == |ids|
  {
    if ids == [] then []
    else Entries(docs, topN, ids[..|ids| - 1]) + [EntryOf(docs, topN, ids[|ids| - 1])]
  }

  lemma EntriesStep(docs: seq<Doc>, topN: int, ids: seq<int>, i: nat)
    requires i < |ids|
    ensures Entries(docs, topN, ids[..i + 1]) == Entries(docs, topN, ids[..i]) + [EntryOf(docs, topN, ids[i])]
  {
    assert ids[..i + 1][..i] == ids[..i];
  }

  /** The i-th entry is that of the i-th topic. */
  lemma {:induction false} EntryAt(docs: seq<Doc>, topN: int, ids: seq<int>, i: nat)
    requires i < |ids|
    ensures Entries(docs, topN, ids)[i] == EntryOf(docs, topN, ids[i])
  {
    if i < |ids| - 1 {
      EntryAt(docs, topN, ids[..|ids| - 1], i);
    }
  }

  /** The entries follow the given topics, each holding a top selection of
      its topic's rows. */
  lemma EntriesAreRepresentative(docs: seq<Doc>, topN: int, ids: seq<int>)
    ensures Firsts(Entries(docs, topN, ids)) == ids
    ensures forall i :: 0 <= i < |ids| ==> IsRepresentative(docs, topN, Entries(docs, topN, ids)[i])
  {
    var reps := Entries(docs, topN, ids);
    forall i | 0 <= i < |ids| ensures reps[i].0 == ids[i] && IsRepresentative(docs, topN, reps[i]) {
      EntryAt(docs, topN, ids, i);
      EntryOfIsRepresentative(docs, topN, ids[i]);
    }
  }

  lemma FlattenStep(reps: seq<(int, seq<Doc>)>, j: nat)
    requires j < |reps|
    ensures Flatten(reps[..j + 1]) == Flatten(reps[..j]) + RowsOf(reps[j].0, reps[j].1)
  {
    assert reps[..j + 1][..j] == reps[..j];
  }

  lemma RowsOfStep(topic: int, chosen: seq<Doc>, r: nat)
    requires r < |chosen|
    ensures RowsOf(topic, chosen[..r + 1])
      == RowsOf(topic, chosen[..r]) + [RepRow(topic, chosen[r].row.response, chosen[r].prob)]
  {
  }

  /** `get_representative_responses`: the dictionary from each topic id,
      the outlier included, in order of first appearance, to its top rows;
      and the rows written out, entry by entry. */
  method GetRepresentativeResponses(docs: seq<Doc>, topN: int)
    returns (reps: seq<(int, seq<Doc>)>, rows: seq<RepRow>)
    ensures reps == Entries(docs, topN, Unique(Topics(docs)))
    ensures rows == Flatten(reps)
  {
    var ids := Unique(Topics(docs));
    reps := [];
    var i := 0;
    while i < |ids|
      invariant 0 <= i <= |ids|
      invariant reps == Entries(docs, topN, ids[..i])
    {
      var entry := EntryOf(docs, topN, ids[i]);
      EntriesStep(docs, topN, ids, i);
      reps := reps + [entry];
      i := i + 1;
    }
    assert ids[..|ids|] == ids;
    rows := ResultRows(reps);
  }

  /** The rows of the representative-responses table written out: for
      each entry in order, one (topic, response, probability) row per
      chosen row. */
  method ResultRows(reps: seq<(int, seq<Doc>)>) returns (rows: seq<RepRow>)
    ensures rows == Flatten(reps)
  {
    rows := [];
    var j := 0;
    while j < |reps|
      invariant 0 <= j <= |reps|
      invariant rows == Flatten(reps[..j])
    {
      var topic := reps[j].0;
      var responses := reps[j].1;
      var r := 0;
      while r < |responses|
        invariant 0 <= r <= |responses|
        invariant rows == Flatten(reps[..j]) + RowsOf(topic, responses[..r])
      {
        RowsOfStep(topic, responses, r);
        rows := rows + [RepRow(topic, responses[r].row.response, responses[r].prob)];
        r := r + 1;
      }
      assert responses[..r] == responses;
      FlattenStep(reps, j);
      j := j + 1;
    }
    assert reps[..|reps|] == reps;
  }

  /** Σ over the topics of ids of the number of rows `head(top_n)` keeps. */
  function KeptCount(docs: seq<Doc>, topN: int, ids: seq<int>): nat {
    if ids == [] then 0
    else KeptCount(docs, topN, ids[..|ids| - 1]) + HeadLength(topN, multiset(Topics(docs))[ids[|ids| - 1]])
  }

  /** The rows written out number Σ_t min(top_n, size[t]) (for a
      non-negative top_n). */
  lemma {:induction false} FlattenLength(docs: seq<Doc>, topN: int, reps: seq<(int, seq<Doc>)>)
    requires forall i :: 0 <= i < |reps| ==> IsRepresentative(docs, topN, reps[i])
    ensures |Flatten(reps)| == KeptCount(docs, topN, Firsts(reps))
  {
    if reps != [] {
      var init := reps[..|reps| - 1];
      var last := reps[|reps| - 1];
      assert Firsts(init) == Firsts(reps)[..|reps| - 1];
      FlattenLength(docs, topN, init);
      OfTopicSize(docs, last.0);
      assert IsRepresentative(docs, topN, last);
    }
  }

  /** Every row written out is the topic, response and probability of a
      row of the table. */
  lemma {:induction false} FlattenCopiesRows(docs: seq<Doc>, topN: int, reps: seq<(int, seq<Doc>)>)
    requires forall i :: 0 <= i < |reps| ==> IsRepresentative(docs, topN, reps[i])
    ensures forall r :: r in Flatten(reps) ==>
      exists d :: d in docs && r == RepRow(d.topic, d.row.response, d.prob)
  {
    if reps != [] {
      var init := reps[..|reps| - 1];
      var last := reps[|reps| - 1];
      FlattenCopiesRows(docs, topN, init);
      assert IsRepresentative(docs, topN, last);
      forall r | r in RowsOf(last.0, last.1)
        ensures exists d :: d in docs && r == RepRow(d.topic, d.row.response, d.prob)
      {
        var k :| 0 <= k < |last.1| && RowsOf(last.0, last.1)[k] == r;
        var c := last.1[k];
        assert c in multiset(last.1);
        assert multiset(OfTopic(docs, last.0))[c] > 0;
        assert c in docs && c.topic == last.0;
      }
    }
  }
}
