/** The hand-curated topic registry: a label per topic id, six categories
    grouping the ids, and a colour per category. All three lookups are
    total, with fixed fallbacks. */
module TopicLabels {
  import opened Text

  /** A label of the registry: "<category word>: <topic name>". */
  function Entry(word: string, name: string): string {
    word + ": " + name
  }

  /** TOPIC_LABELS: topic id to human-readable label. */
  const Labels: map<int, string> := map[
    0 := Entry("Healthcare", "Medication Access"),
    1 := Entry("Healthcare", "Service Delays"),
    2 := Entry("Community", "Institutional Trust"),
    3 := Entry("Social", "Youth Migration"),
    4 := Entry("Infrastructure", "Housing"),
    5 := Entry("Economy", "Informal Sector"),
    6 := Entry("Governance", "Institutional Trust"),
    7 := Entry("Infrastructure", "Power Supply"),
    8 := Entry("Services", "Waste Management"),
    9 := Entry("Infrastructure", "Water Access"),
    10 := Entry("Social", "Community Participation"),
    11 := Entry("Healthcare", "Mental Health"),
    12 := Entry("Economy", "Entrepreneurship"),
    13 := Entry("Economy", "Local Employment"),
    14 := Entry("Healthcare", "Medical Facilities"),
    15 := Entry("Governance", "Civic Engagement"),
    16 := Entry("Services", "Water Quality"),
    17 := Entry("Governance", "Response Time"),
    18 := Entry("Governance", "Public Communication")
  ]

  /** TOPIC_CATEGORIES, in the dict's insertion order (which is the order
      `get_topic_category` iterates in). */
  const Categories: seq<(string, seq<int>)> := [
    ("Healthcare", [0, 1, 11, 14]),
    ("Infrastructure", [4, 7, 9, 16]),
    ("Economy", [5, 12, 13]),
    ("Social", [3, 10]),
    ("Governance", [2, 6, 15, 17, 18]),
    ("Services", [8])
  ]

  const Other: string := "Other"
  const Grey: string := "#CCCCCC"

  /** The `color_map` of `get_category_color`. */
  const Colors: map<string, string> := map[
    "Healthcare" := "#FF9999",
    "Infrastructure" := "#66B2FF",
    "Economy" := "#99FF99",
    "Social" := "#FFCC99",
    "Governance" := "#FF99FF",
    "Services" := "#FFFF99",
    "Other" := "#CCCCCC"
  ]

  /** `get_topic_label`: the registry entry, else "Topic {id}". */
  function TopicLabel(id: int): (text: string)
    ensures id in Labels ==> text == Labels[id]
    ensures id !in Labels ==> |text| > 6 && text[..6] == "Topic " && text[6..] == IntToString(id)
  {
    if id in Labels then Labels[id]
    else
      var text := "Topic " + IntToString(id);
      assert text[6..] == IntToString(id);
      text
  }

  /** Category k is the first, in iteration order, that lists `id`. */
  predicate FirstListing(cats: seq<(string, seq<int>)>, id: int, k: int) {
    0 <= k < |cats| && id in cats[k].1 && forall j :: 0 <= j < k ==> id !in cats[j].1
  }

  /** The first category (in iteration order) whose id list holds `id`,
      or "Other" when none does. */
  function FindCategory(cats: seq<(string, seq<int>)>, id: int): (c: string)
    ensures forall k :: FirstListing(cats, id, k) ==> c == cats[k].0
    ensures (forall k :: 0 <= k < |cats| ==> id !in cats[k].1) ==> c == Other
  {
    if cats == [] then Other
    else if id in cats[0].1 then cats[0].0
    else FindCategory(cats[1..], id)
  }

  /** `get_topic_category`. */
  function TopicCategory(id: int): (c: string)
    ensures forall k :: 0 <= k < |Categories| && id in Categories[k].1 ==> c == Categories[k].0
    ensures (forall k :: 0 <= k < |Categories| ==> id !in Categories[k].1) ==> c == Other
  {
    CategoriesDisjoint();
    FindCategory(Categories, id)
  }

  /** `get_category_color`: the listed colour, grey for anything unknown. */
  function CategoryColor(category: string): (color: string)
    ensures IsHexColor(color)
    ensures category !in Colors ==> color == Grey
  {
    if category in Colors then Colors[category] else Grey
  }

  /** No id is listed under two categories. */
  ghost predicate PairwiseDisjoint(cats: seq<(string, seq<int>)>) {
    forall i, j, id :: 0 <= i < j < |cats| && id in cats[i].1 ==> id !in cats[j].1
  }

  /** Every id listed under some category. */
  ghost function ListedIds(cats: seq<(string, seq<int>)>): set<int> {
    set i, id | 0 <= i < |cats| && id in cats[i].1 :: id
  }

  /** When no id is listed twice, the search finds THE category of an id,
      whatever position that category has in the iteration order. */
  lemma {:induction false} FindCategoryUnique(cats: seq<(string, seq<int>)>, id: int, k: int)
    requires PairwiseDisjoint(cats)
    requires 0 <= k < |cats| && id in cats[k].1
    ensures FindCategory(cats, id) == cats[k].0
  {
    if k > 0 {
      assert id !in cats[0].1;
      assert PairwiseDisjoint(cats[1..]) by {
        forall i, j, x | 0 <= i < j < |cats[1..]| && x in cats[1..][i].1
          ensures x !in cats[1..][j].1
        {
          assert cats[1..][i] == cats[i + 1] && cats[1..][j] == cats[j + 1];
        }
      }
      FindCategoryUnique(cats[1..], id, k - 1);
    }
  }

  /** The search falls back to "Other" exactly for ids listed nowhere
      (given that no category is itself named "Other"). */
  lemma {:induction false} FindCategoryOther(cats: seq<(string, seq<int>)>, id: int)
    requires forall i :: 0 <= i < |cats| ==> cats[i].0 != Other
    ensures FindCategory(cats, id) == Other <==> id !in ListedIds(cats)
  {
    if cats != [] {
      FindCategoryOther(cats[1..], id);
      assert ListedIds(cats) == (set x | x in cats[0].1) + ListedIds(cats[1..]) by {
        forall x ensures x in ListedIds(cats) <==> x in (set x | x in cats[0].1) + ListedIds(cats[1..]) {
          if x in ListedIds(cats) {
            var i :| 0 <= i < |cats| && x in cats[i].1;
            if i > 0 { assert cats[1..][i - 1] == cats[i]; }
          }
          if x in ListedIds(cats[1..]) {
            var i :| 0 <= i < |cats[1..]| && x in cats[1..][i].1;
            assert cats[1..][i] == cats[i + 1];
          }
        }
      }
    }
  }

  /** No id of TOPIC_CATEGORIES is listed under two categories. */
  lemma CategoriesDisjoint()
    ensures PairwiseDisjoint(Categories)
  {
    forall i, j, id | 0 <= i < j < |Categories| && id in Categories[i].1
      ensures id !in Categories[j].1
    {
      if i == 0 {} else if i == 1 {} else if i == 2 {} else if i == 3 {} else {}
    }
  }

  /** TOPIC_CATEGORIES partitions exactly the ids of TOPIC_LABELS. */
  lemma CategoriesPartitionLabels()
    ensures PairwiseDisjoint(Categories)
    ensures ListedIds(Categories) == Labels.Keys
  {
    CategoriesDisjoint();
    forall id | id in Labels ensures id in ListedIds(Categories) {
      var k := if id in Categories[0].1 then 0
        else if id in Categories[1].1 then 1
        else if id in Categories[2].1 then 2
        else if id in Categories[3].1 then 3
        else if id in Categories[4].1 then 4
        else 5;
      assert id in Categories[k].1;
    }
  }

  /** The category names (the dict's keys) are distinct, and none is "Other". */
  lemma CategoryNamesDistinct()
    ensures forall i, j :: 0 <= i < j < |Categories| ==> Categories[i].0 != Categories[j].0
    ensures forall i :: 0 <= i < |Categories| ==> Categories[i].0 != Other
  {
  }

  /** `get_topic_category` does not depend on the order in which the
      categories are tried: an id is in a category's list exactly when
      that category is returned for it. */
  lemma TopicCategoryMatchesList(id: int, k: int)
    requires 0 <= k < |Categories|
    ensures TopicCategory(id) == Categories[k].0 <==> id in Categories[k].1
  {
    CategoryNamesDistinct();
    if id !in Categories[k].1 && exists i :: 0 <= i < |Categories| && id in Categories[i].1 {
      var i :| 0 <= i < |Categories| && id in Categories[i].1;
      assert TopicCategory(id) == Categories[i].0;
    }
  }

  /** "Other" is returned exactly for the ids without a registry label
      (for instance -1 and 19); every labelled id has a real category. */
  lemma TopicCategoryOther(id: int)
    ensures TopicCategory(id) == Other <==> id !in Labels
  {
    CategoriesPartitionLabels();
    FindCategoryOther(Categories, id);
  }

  /** The registry label is returned for ids 0..18 and "Topic {id}" for
      every other id; the fallback never collides with a curated label. */
  lemma TopicLabelFallback(id: int)
    ensures id in Labels <==> 0 <= id <= 18
    ensures id in Labels ==> TopicLabel(id) == Labels[id] && TopicLabel(id)[..6] != "Topic "
    ensures id !in Labels ==> |TopicLabel(id)| > 6 && TopicLabel(id)[..6] == "Topic "
                              && TopicLabel(id)[6..] == IntToString(id)
  {
    if id in Labels {
      assert Labels[id][0] != 'T';
    } else {
      assert ("Topic " + IntToString(id))[6..] == IntToString(id);
    }
  }

  /** The example from the source's documentation: 999 falls back. */
  lemma TopicLabel999()
    ensures TopicLabel(999) == "Topic 999"
  {
    assert NatToString(999) == NatToString(99) + ['9'];
    assert NatToString(99) == "99";
  }

  /** A fallback label is never shared: it differs from every curated
      label and from the fallback label of every other id. */
  lemma FallbackLabelUnique(a: int, b: int)
    requires a !in Labels
    requires TopicLabel(a) == TopicLabel(b)
    ensures a == b
  {
    TopicLabelFallback(a);
    TopicLabelFallback(b);
    if b !in Labels {
      IntToStringInjective(a, b);
    }
  }

  /** '#' followed by six hexadecimal digits. */
  predicate IsHexColor(s: string) {
    |s| == 7 && s[0] == '#' &&
    forall i :: 1 <= i < 7 ==> ('0' <= s[i] <= '9' || 'A' <= s[i] <= 'F')
  }

  /** The colour of every topic's category is the listed one, including
      grey for "Other": the colour lookup is total on categories. */
  lemma TopicColorListed(id: int)
    ensures TopicCategory(id) in Colors
  {
    TopicCategoryOther(id);
    if id in Labels {
      CategoriesPartitionLabels();
      assert id in ListedIds(Categories);
      var k :| 0 <= k < |Categories| && id in Categories[k].1;
      assert TopicCategory(id) == Categories[k].0;
    }
  }

  /** The six named categories have pairwise distinct colours, none of
      them the fallback grey. */
  lemma CategoryColorsDistinct(i: int, j: int)
    requires 0 <= i < |Categories| && 0 <= j < |Categories|
    ensures CategoryColor(Categories[i].0) != Grey
    ensures i != j ==> CategoryColor(Categories[i].0) != CategoryColor(Categories[j].0)
  {
  }

  /** The text of a label before its first ':' (the whole label if none). */
  function LabelPrefix(text: string): string {
    if text == [] || text[0] == ':' then [] else [text[0]] + LabelPrefix(text[1..])
  }

  predicate NoColon(word: string) {
    forall i :: 0 <= i < |word| ==> word[i] != ':'
  }

  /** The prefix of a registry entry is the word it was built from. */
  lemma {:induction false} LabelPrefixOfEntry(word: string, name: string)
    requires NoColon(word)
    ensures LabelPrefix(Entry(word, name)) == word
  {
    if word != [] {
      assert Entry(word, name)[1..] == Entry(word[1..], name);
      LabelPrefixOfEntry(word[1..], name);
      assert [word[0]] + word[1..] == word;
    }
  }

  /* The word before ':' in the label of each id, category by category. */

  lemma LabelWordsOfHealthcare(id: int)
    requires id in Categories[0].1
    ensures LabelPrefix(TopicLabel(id)) == "Healthcare"
  {
    assert NoColon("Healthcare");
    if id == 0 {
      assert TopicLabel(id) == Entry("Healthcare", "Medication Access");
      LabelPrefixOfEntry("Healthcare", "Medication Access");
    } else if id == 1 {
      assert TopicLabel(id) == Entry("Healthcare", "Service Delays");
      LabelPrefixOfEntry("Healthcare", "Service Delays");
    } else if id == 11 {
      assert TopicLabel(id) == Entry("Healthcare", "Mental Health");
      LabelPrefixOfEntry("Healthcare", "Mental Health");
    } else {
      assert TopicLabel(id) == Entry("Healthcare", "Medical Facilities");
      LabelPrefixOfEntry("Healthcare", "Medical Facilities");
    }
  }

  lemma LabelWordsOfInfrastructure(id: int)
    requires id in Categories[1].1
    ensures LabelPrefix(TopicLabel(id)) == if id == 16 then "Services" else "Infrastructure"
  {
    assert NoColon("Infrastructure");
    assert NoColon("Services");
    if id == 4 {
      assert TopicLabel(id) == Entry("Infrastructure", "Housing");
      LabelPrefixOfEntry("Infrastructure", "Housing");
    } else if id == 7 {
      assert TopicLabel(id) == Entry("Infrastructure", "Power Supply");
      LabelPrefixOfEntry("Infrastructure", "Power Supply");
    } else if id == 9 {
      assert TopicLabel(id) == Entry("Infrastructure", "Water Access");
      LabelPrefixOfEntry("Infrastructure", "Water Access");
    } else {
      assert TopicLabel(id) == Entry("Services", "Water Quality");
      LabelPrefixOfEntry("Services", "Water Quality");
    }
  }

  lemma LabelWordsOfEconomy(id: int)
    requires id in Categories[2].1
    ensures LabelPrefix(TopicLabel(id)) == "Economy"
  {
    assert NoColon("Economy");
    if id == 5 {
      assert TopicLabel(id) == Entry("Economy", "Informal Sector");
      LabelPrefixOfEntry("Economy", "Informal Sector");
    } else if id == 12 {
      assert TopicLabel(id) == Entry("Economy", "Entrepreneurship");
      LabelPrefixOfEntry("Economy", "Entrepreneurship");
    } else {
      assert TopicLabel(id) == Entry("Economy", "Local Employment");
      LabelPrefixOfEntry("Economy", "Local Employment");
    }
  }

  lemma LabelWordsOfSocial(id: int)
    requires id in Categories[3].1
    ensures LabelPrefix(TopicLabel(id)) == "Social"
  {
    assert NoColon("Social");
    if id == 3 {
      assert TopicLabel(id) == Entry("Social", "Youth Migration");
      LabelPrefixOfEntry("Social", "Youth Migration");
    } else {
      assert TopicLabel(id) == Entry("Social", "Community Participation");
      LabelPrefixOfEntry("Social", "Community Participation");
    }
  }

  lemma LabelWordsOfGovernance(id: int)
    requires id in Categories[4].1
    ensures LabelPrefix(TopicLabel(id)) == if id == 2 then "Community" else "Governance"
  {
    assert NoColon("Governance");
    assert NoColon("Community");
    if id == 2 {
      assert TopicLabel(id) == Entry("Community", "Institutional Trust");
      LabelPrefixOfEntry("Community", "Institutional Trust");
    } else if id == 6 {
      assert TopicLabel(id) == Entry("Governance", "Institutional Trust");
      LabelPrefixOfEntry("Governance", "Institutional Trust");
    } else if id == 15 {
      assert TopicLabel(id) == Entry("Governance", "Civic Engagement");
      LabelPrefixOfEntry("Governance", "Civic Engagement");
    } else if id == 17 {
      assert TopicLabel(id) == Entry("Governance", "Response Time");
      LabelPrefixOfEntry("Governance", "Response Time");
    } else {
      assert TopicLabel(id) == Entry("Governance", "Public Communication");
      LabelPrefixOfEntry("Governance", "Public Communication");
    }
  }

  lemma LabelWordsOfServices(id: int)
    requires id in Categories[5].1
    ensures LabelPrefix(TopicLabel(id)) == "Services"
  {
    assert NoColon("Services");
    assert TopicLabel(id) == Entry("Services", "Waste Management");
    LabelPrefixOfEntry("Services", "Waste Management");
  }

  /** The word before ':' in the label of an id listed under category k. */
  lemma LabelWordsOf(id: int, k: int)
    requires 0 <= k < |Categories| && id in Categories[k].1
    ensures LabelPrefix(TopicLabel(id)) ==
      if id == 2 then "Community" else if id == 16 then "Services" else Categories[k].0
  {
    if k == 0 {
      LabelWordsOfHealthcare(id);
    } else if k == 1 {
      LabelWordsOfInfrastructure(id);
    } else if k == 2 {
      LabelWordsOfEconomy(id);
    } else if k == 3 {
      LabelWordsOfSocial(id);
    } else if k == 4 {
      LabelWordsOfGovernance(id);
    } else {
      LabelWordsOfServices(id);
    }
  }

  /** A fact about the curated constants: the word before ':' in a label
      names the topic's category, except for topic 2 ("Community", listed
      under Governance) and topic 16 ("Services", listed under
      Infrastructure). */
  lemma LabelPrefixIsCategory(id: int)
    requires id in Labels
    ensures LabelPrefix(TopicLabel(id)) == TopicCategory(id) <==> id != 2 && id != 16
  {
    CategoriesPartitionLabels();
    assert id in ListedIds(Categories);
    var k :| 0 <= k < |Categories| && id in Categories[k].1;
    TopicCategoryMatchesList(id, k);
    LabelWordsOf(id, k);
    if id == 2 {
      TopicCategoryMatchesList(id, 4);
    } else if id == 16 {
      TopicCategoryMatchesList(id, 1);
    }
  }
}
