/** The few table operations of pandas the pipeline relies on, over
    sequences of rows: `unique()`, filtering by topic, `value_counts()`,
    `head(n)` and `sort_values(..., ascending=False)`. */
module Frame {
  import opened Records

  /** Length of `xs[:n]`, and of `head(n)`, for a sequence of length len:
      a negative n drops that many rows from the end. */
  function HeadLength(n: int, len: nat): (k: nat)
    ensures k <= len
    ensures 0 <= n ==> k == (if n < len then n else len)
    ensures n < 0 ==> k + (if -n < len then -n else len) == len
  {
    if n >= 0 then (if n < len then n else len)
    else if len + n > 0 then len + n else 0
  }

  predicate Distinct<T(==)>(xs: seq<T>) {
    forall i, j :: 0 <= i < j < |xs| ==> xs[i] != xs[j]
  }

  /** Position of the first occurrence of x. */
  function FirstIndex<T(==)>(xs: seq<T>, x: T): (i: nat)
    requires x in xs
    ensures i < |xs| && xs[i] == x
    ensures forall j :: 0 <= j < i ==> xs[j] != x
  {
    if xs[0] == x then 0 else 1 + FirstIndex(xs[1..], x)
  }

  /** The first occurrence of a value that already occurs in a prefix lies
      in that prefix. */
  lemma {:induction false} FirstIndexInPrefix<T>(xs: seq<T>, n: nat, x: T)
    requires n <= |xs| && x in xs[..n]
    ensures FirstIndex(xs, x) == FirstIndex(xs[..n], x)
  {
    assert xs[..n][0] == xs[0];
    if xs[0] != x {
      assert xs[..n][1..] == xs[1..][..n - 1];
      FirstIndexInPrefix(xs[1..], n - 1, x);
    }
  }

  /** The first components of a list of pairs: the key column of a
      list of (key, value) entries. */
  function Firsts<A, B>(ps: seq<(A, B)>): (ks: seq<A>)
    ensures |ks| == |ps| && forall i :: 0 <= i < |ps| ==> ks[i] == ps[i].0
  {
    seq(|ps|, i requires 0 <= i < |ps| => ps[i].0)
  }

  /** `Series.unique()`: each value once. */
  function Unique<T(==, !new)>(xs: seq<T>): (u: seq<T>)
    ensures forall x :: x in u <==> x in xs
    ensures Distinct(u)
  {
    if xs == [] then []
    else
      var init := xs[..|xs| - 1];
      var last := xs[|xs| - 1];
      var u := Unique(init);
      assert xs == init + [last];
      if last in u then u else u + [last]
  }

  /** `unique()` lists the values in the order of their first appearance. */
  lemma {:induction false} UniqueInFirstAppearanceOrder<T(!new)>(xs: seq<T>)
    ensures forall i, j :: 0 <= i < j < |Unique(xs)| ==>
      FirstIndex(xs, Unique(xs)[i]) < FirstIndex(xs, Unique(xs)[j])
  {
    if xs != [] {
      var init := xs[..|xs| - 1];
      var last := xs[|xs| - 1];
      var u := Unique(init);
      assert xs == init + [last];
      UniqueInFirstAppearanceOrder(init);
      assert forall x :: x in u ==> FirstIndex(xs, x) == FirstIndex(init, x) by {
        forall x | x in u ensures FirstIndex(xs, x) == FirstIndex(init, x) {
          FirstIndexInPrefix(xs, |xs| - 1, x);
        }
      }
      if last !in u {
        assert FirstIndex(xs, last) == |xs| - 1;
      }
    }
  }

  /** The topic ids other than the outlier id, in their order. */
  function DropOutliers(ts: seq<int>): (r: seq<int>)
    ensures |r| <= |ts|
    ensures forall t :: t in r <==> t in ts && t != Outlier
  {
    if ts == [] then []
    else
      var init := ts[..|ts| - 1];
      var last := ts[|ts| - 1];
      assert ts == init + [last];
      DropOutliers(init) + (if last == Outlier then [] else [last])
  }

  /** Dropping the outlier keeps the other ids in order: it distributes
      over concatenation. */
  lemma {:induction false} DropOutliersAppend(a: seq<int>, b: seq<int>)
    ensures DropOutliers(a + b) == DropOutliers(a) + DropOutliers(b)
    decreases |b|
  {
    if b != [] {
      var init := b[..|b| - 1];
      assert a + b == (a + init) + [b[|b| - 1]];
      assert b == init + [b[|b| - 1]];
      DropOutliersAppend(a, init);
    } else {
      assert a + b == a;
    }
  }

  /** One more id of a list either is the outlier and is dropped, or is
      kept at the end. */
  lemma DropOutliersStep(ts: seq<int>, i: nat)
    requires i < |ts|
    ensures DropOutliers(ts[..i + 1]) == DropOutliers(ts[..i]) + (if ts[i] == Outlier then [] else [ts[i]])
  {
    assert ts[..i + 1] == ts[..i] + [ts[i]];
    DropOutliersAppend(ts[..i], [ts[i]]);
  }

  /** Dropping the outlier from distinct ids leaves distinct ids. */
  lemma {:induction false} DropOutliersDistinct(ts: seq<int>)
    requires Distinct(ts)
    ensures Distinct(DropOutliers(ts))
  {
    if ts != [] {
      var init := ts[..|ts| - 1];
      var last := ts[|ts| - 1];
      assert ts == init + [last];
      assert last !in init by {
        forall j | 0 <= j < |init| ensures init[j] != last {
          assert init[j] == ts[j];
        }
      }
      DropOutliersDistinct(init);
      var r := DropOutliers(init) + (if last == Outlier then [] else [last]);
      assert DropOutliers(ts) == r;
      forall a, b | 0 <= a < b < |r| ensures r[a] != r[b] {
        if b == |DropOutliers(init)| {
          assert r[a] in DropOutliers(init);
        }
      }
    }
  }

  /** Σ over the values us of the number of times each occurs in xs. */
  function SumCounts<T(==)>(xs: seq<T>, us: seq<T>): nat {
    if us == [] then 0 else multiset(xs)[us[0]] + SumCounts(xs, us[1..])
  }

  lemma {:induction false} SumCountsAppend<T>(xs: seq<T>, x: T, us: seq<T>)
    requires Distinct(us)
    ensures SumCounts(xs + [x], us) == SumCounts(xs, us) + (if x in us then 1 else 0)
  {
    if us != [] {
      SumCountsAppend(xs, x, us[1..]);
      assert x in us <==> x == us[0] || x in us[1..];
      assert us[0] !in us[1..] by {
        forall j | 0 <= j < |us[1..]| ensures us[1..][j] != us[0] {
          assert us[1..][j] == us[j + 1];
        }
      }
    }
  }

  /** Counting each value of a list that covers xs, once each, counts
      every element of xs exactly once. */
  lemma {:induction false} CountsSumToLength<T>(xs: seq<T>, us: seq<T>)
    requires Distinct(us)
    requires forall x :: x in xs ==> x in us
    ensures SumCounts(xs, us) == |xs|
    decreases |xs|, |us|
  {
    if xs == [] {
      if us != [] {
        assert Distinct(us[1..]) by {
          forall i, j | 0 <= i < j < |us[1..]| ensures us[1..][i] != us[1..][j] {
            assert us[1..][i] == us[i + 1] && us[1..][j] == us[j + 1];
          }
        }
        CountsSumToLength(xs, us[1..]);
      }
    } else {
      var init := xs[..|xs| - 1];
      assert xs == init + [xs[|xs| - 1]];
      CountsSumToLength(init, us);
      SumCountsAppend(init, xs[|xs| - 1], us);
    }
  }

  /** `df[df["Topic"] == t]`: the rows of topic t, in table order. */
  function OfTopic(docs: seq<Doc>, t: int): (r: seq<Doc>)
    ensures forall d :: multiset(r)[d] == if d.topic == t then multiset(docs)[d] else 0
  {
    if docs == [] then []
    else
      var init := docs[..|docs| - 1];
      var last := docs[|docs| - 1];
      assert docs == init + [last];
      OfTopic(init, t) + (if last.topic == t then [last] else [])
  }

  /** Rows chosen from the rows of topic t are rows of the table with
      topic t. */
  lemma FromTopic(docs: seq<Doc>, t: int, chosen: seq<Doc>)
    requires multiset(chosen) <= multiset(OfTopic(docs, t))
    ensures forall d :: d in chosen ==> d.topic == t && d in docs
  {
    forall d | d in chosen ensures d.topic == t && d in docs {
      assert d in multiset(chosen);
      assert multiset(OfTopic(docs, t))[d] > 0;
    }
  }

  /** A topic has as many rows as its id occurs in the topic column. */
  lemma {:induction false} OfTopicSize(docs: seq<Doc>, t: int)
    ensures |OfTopic(docs, t)| == multiset(Topics(docs))[t]
  {
    if docs != [] {
      var init := docs[..|docs| - 1];
      var last := docs[|docs| - 1];
      assert docs == init + [last];
      assert Topics(docs) == Topics(init) + [last.topic];
      OfTopicSize(init, t);
    }
  }

  /** `chosen` is what sorting rows by descending probability and keeping
      the first k gives, for some order among equal probabilities: k rows
      (or all of them), taken from rows, in non-increasing probability,
      and no row left out has a higher probability than one kept. */
  predicate IsTopK(rows: seq<Doc>, k: nat, chosen: seq<Doc>) {
    && |chosen| == (if k < |rows| then k else |rows|)
    && multiset(chosen) <= multiset(rows)
    && NonIncreasing(chosen)
    && NoneLeftOutHigher(rows, chosen)
  }

  predicate NonIncreasing(rows: seq<Doc>) {
    forall i, j :: 0 <= i < j < |rows| ==> rows[i].prob >= rows[j].prob
  }

  predicate NoneLeftOutHigher(rows: seq<Doc>, chosen: seq<Doc>) {
    forall d, c :: d in multiset(rows) - multiset(chosen) && c in chosen ==> d.prob <= c.prob
  }

  /** Index of a row of highest probability. */
  function MaxIndex(rows: seq<Doc>): (i: nat)
    requires |rows| > 0
    ensures i < |rows| && forall j :: 0 <= j < |rows| ==> rows[j].prob <= rows[i].prob
  {
    if |rows| == 1 then 0
    else
      var i := MaxIndex(rows[1..]) + 1;
      if rows[0].prob >= rows[i].prob then 0 else i
  }

  /** Every row of a sub-multiset of rows is bounded by a bound of rows. */
  lemma BoundedBelow(rows: seq<Doc>, sub: multiset<Doc>, top: real)
    requires sub <= multiset(rows)
    requires forall j :: 0 <= j < |rows| ==> rows[j].prob <= top
    ensures forall d :: d in sub ==> d.prob <= top
  {
    forall d | d in sub ensures d.prob <= top {
      assert d in multiset(rows);
      var j :| 0 <= j < |rows| && rows[j] == d;
    }
  }

  /** Choosing x from rows and then chosen from the rest chooses a
      sub-multiset of rows and leaves out what the second choice left out. */
  lemma ChooseInFront(rows: seq<Doc>, rest: seq<Doc>, chosen: seq<Doc>, x: Doc)
    requires multiset(rows) == multiset(rest) + multiset{x}
    requires multiset(chosen) <= multiset(rest)
    ensures multiset([x] + chosen) <= multiset(rows)
    ensures multiset(rows) - multiset([x] + chosen) == multiset(rest) - multiset(chosen)
  {
    assert multiset([x] + chosen) == multiset(chosen) + multiset{x};
  }

  /** Putting a row no lower than every chosen row in front keeps the
      probabilities non-increasing. */
  lemma PrependSorted(top: Doc, chosen: seq<Doc>)
    requires NonIncreasing(chosen)
    requires forall c :: c in chosen ==> c.prob <= top.prob
    ensures NonIncreasing([top] + chosen)
  {
    var all := [top] + chosen;
    forall a, b | 0 <= a < b < |all| ensures all[a].prob >= all[b].prob {
      assert all[b] == chosen[b - 1];
      if a > 0 {
        assert all[a] == chosen[a - 1];
      }
    }
  }

  /** Nothing left out is above the front row (a maximum) or above the
      rest of the choice. */
  lemma PrependLeftOut(rows: seq<Doc>, rest: seq<Doc>, chosen: seq<Doc>, top: Doc)
    requires NoneLeftOutHigher(rest, chosen)
    requires multiset(rows) - multiset([top] + chosen) == multiset(rest) - multiset(chosen)
    requires forall d :: d in multiset(rest) ==> d.prob <= top.prob
    ensures NoneLeftOutHigher(rows, [top] + chosen)
  {
    var all := [top] + chosen;
    forall d, c | d in multiset(rows) - multiset(all) && c in all ensures d.prob <= c.prob {
      if c != top {
        assert c in chosen;
      }
    }
  }

  /** Removing the row at i removes one copy of it. */
  lemma RemoveAt(rows: seq<Doc>, i: nat)
    requires i < |rows|
    ensures |rows[..i] + rows[i + 1..]| == |rows| - 1
    ensures multiset(rows) == multiset(rows[..i] + rows[i + 1..]) + multiset{rows[i]}
  {
    var a, b := rows[..i], rows[i + 1..];
    assert rows == a + [rows[i]] + b;
    assert multiset(rows) == multiset(a) + multiset([rows[i]]) + multiset(b);
    assert multiset(a + b) == multiset(a) + multiset(b);
  }

  /** One step of selection: the best row followed by a top-(k-1)
      selection from the other rows is a top-k selection. */
  lemma TopKStep(rows: seq<Doc>, k: nat, i: nat, chosen: seq<Doc>)
    requires 0 < k && i < |rows|
    requires forall j :: 0 <= j < |rows| ==> rows[j].prob <= rows[i].prob
    requires IsTopK(rows[..i] + rows[i + 1..], k - 1, chosen)
    ensures IsTopK(rows, k, [rows[i]] + chosen)
  {
    var rest := rows[..i] + rows[i + 1..];
    var top := rows[i];
    RemoveAt(rows, i);
    ChooseInFront(rows, rest, chosen, top);
    BoundedBelow(rows, multiset(rest), top.prob);
    ChosenBelow(rest, chosen, top.prob);
    PrependSorted(top, chosen);
    PrependLeftOut(rows, rest, chosen, top);
  }

  /** A sub-multiset of rows bounded by top is bounded by top, element by
      element of the sequence. */
  lemma ChosenBelow(rest: seq<Doc>, chosen: seq<Doc>, top: real)
    requires multiset(chosen) <= multiset(rest)
    requires forall d :: d in multiset(rest) ==> d.prob <= top
    ensures forall c :: c in chosen ==> c.prob <= top
  {
    forall c | c in chosen ensures c.prob <= top {
      assert c in multiset(chosen);
    }
  }

  /** `sort_values("Topic_Probability", ascending=False).head(k)` for
      k >= 0. */
  function TopK(rows: seq<Doc>, k: nat): (chosen: seq<Doc>)
    ensures IsTopK(rows, k, chosen)
    decreases k
  {
    if k == 0 || rows == [] then []
    else
      var i := MaxIndex(rows);
      var chosen := TopK(rows[..i] + rows[i + 1..], k - 1);
      TopKStep(rows, k, i, chosen);
      [rows[i]] + chosen
  }
}
