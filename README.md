# Survey topic pipeline: a Dafny model

This project models the deterministic logic around the topic model of a
survey-analysis pipeline. Open-ended answers to a citizen survey
(region, population group, question, answer) go through these steps:

- they are cleaned;
- a topic model assigns each answer a topic id and a probability, where
  topic `-1` means "outlier";
- the pipeline builds per-topic tables from those assignments: keywords,
  summaries, sizes, diversity, representative answers, and region × topic
  and group × topic contingency tables;
- it draws one word cloud per topic;
- a hand-curated registry maps topic ids to labels, categories and colours.

The embedding and clustering engine is not modelled. Its outputs are plain
inputs of the model:

- the topic id of every answer;
- the probability of every answer, used only as an ordering key;
- the model's topic table of `(Topic, Count)` rows;
- the keyword list of every topic, as `(word, score)` pairs.

A pandas table is a sequence of records (`Records.Doc` = survey row + topic +
probability).

Modules:

- `Wrappers`: `Option` and `Result`.
- `Text`:
  - `", ".join` and `str.split` on a separator, with their round trip;
  - decimal rendering of integers, which is injective.
- `Records`: the row types and column projections.
- `Frame`: the pandas idioms the core relies on:
  - `unique()` in first-appearance order;
  - `head(n)` and slicing, including negative `n`;
  - `df[df.Topic == t]`;
  - the outlier skip;
  - counting;
  - top-k selection by probability.

  `sort_values` is not stable, so top-k selection is specified up to ties:
  the right length, a sub-multiset of the rows, non-increasing
  probabilities, and no unselected row with a strictly higher probability.
  `TopK` is one selection that meets this specification.
- `TopicLabels` models `src/topic_labels.py`: the three lookups over the
  constant tables, and the facts about those tables.
- `Preprocessing` models `clean_response`:
  - Python's `\w`, `\s` and `str.lower`, over Latin-1;
  - the punctuation pass;
  - the three whole-word noise-phrase passes, as `re.sub` scans;
  - whitespace collapsing and `strip`.
- `PostProcess` models `extract_topic_info`, `assign_topics_to_docs` and
  `summarize_topics`. The loops of the source are methods with loop
  invariants, proved against specification functions.
- `TopicAnalysis` models:
  - the crosstab counts and their row normalisation;
  - the topic sizes and the response diversity of `evaluate_topic_quality`;
  - the two loops of `get_representative_responses`.
- `Visualization` models:
  - the `Top_Words` parsing loop of `create_all_visualizations`, including
    its failure on a missing value;
  - the outlier skip and file naming of `generate_wordclouds`.

  The region × topic and group × topic counts of the visualiser are the same
  computation as in the analysis module. They are modelled once, by
  `TopicAnalysis.CrosstabRow` with `Field.Region` or `Field.Group`.

The model follows what the code does, including where that is easy to
misread:

- `clean_response` does no stop-word or keep-word filtering.
- `clean_response` is not idempotent. `Preprocessing.CleanNotIdempotent`
  proves a counterexample.
- Noise phrases are removed after punctuation, not before.
- `extract_topic_info` copies `Count` from the model's topic table. It does
  not recount the rows.
- Summaries and representative answers are selected up to ties. There is
  no stable tie-break.

## Model

| member | source | states |
|---|---|---|
| TopicLabels.TopicLabelFallback | src/topic_labels.py:3-37 | ids 0..18 (exactly the registry keys) get their curated label, which never starts with "Topic "; every other id gets "Topic " followed by its decimal rendering |
| TopicLabels.TopicLabel | src/topic_labels.py:35-37 | `get_topic_label` returns the registry entry for a registered id, and otherwise "Topic " followed by the id's decimal digits |
| TopicLabels.FindCategory | src/topic_labels.py:41-44 | the search returns the name of the first category, in iteration order, whose list holds the id, and "Other" when no list holds it |
| TopicLabels.TopicCategory | src/topic_labels.py:39-44 | `get_topic_category` returns the category of any list the id is in (the lists are disjoint, so the iteration order does not matter) and "Other" for an id in no list |
| TopicLabels.TopicLabel999 | src/topic_labels.py:35-37 | `get_topic_label(999)` is "Topic 999" |
| TopicLabels.FallbackLabelUnique | src/topic_labels.py:35-37 | a fallback label identifies its id: it equals no curated label and no other id's fallback label |
| TopicLabels.CategoriesPartitionLabels | src/topic_labels.py:3-33 | the six category lists are pairwise disjoint and their union is exactly the set of labelled ids |
| TopicLabels.FindCategoryUnique | src/topic_labels.py:39-44 | when no id is listed twice, the first-match search returns the one category listing the id, whatever its position in the iteration order |
| TopicLabels.TopicCategoryMatchesList | src/topic_labels.py:26-44 | `get_topic_category(id)` is category k exactly when id is in category k's list (so the result does not depend on dict order) |
| TopicLabels.TopicCategoryOther | src/topic_labels.py:41-44 | "Other" is returned exactly for the ids without a registry label (e.g. -1, 19); every labelled id gets a named category |
| TopicLabels.TopicColorListed | src/topic_labels.py:46-57 | every category `get_topic_category` can return, "Other" included, has an entry in the colour map |
| TopicLabels.CategoryColor | src/topic_labels.py:46-57 | `get_category_color` returns a '#' and six upper-case hexadecimal digits for every category, and the fallback grey for any name outside the colour map |
| TopicLabels.CategoryColorsDistinct | src/topic_labels.py:48-56 | the six named categories have pairwise distinct colours, none of them the fallback grey "#CCCCCC" |
| TopicLabels.CategoryNamesDistinct | src/topic_labels.py:26-33 | the category names are distinct and none is "Other" |
| TopicLabels.LabelPrefixIsCategory | src/topic_labels.py:6-33 | the word before ':' in a label is the topic's category for every labelled id except 2 ("Community", listed under Governance) and 16 ("Services", listed under Infrastructure) |
| Preprocessing.LowerChar | src/preprocessing.py:7 | lower-casing one character yields no upper-case letter, keeps the word and whitespace classes, and leaves non-upper-case characters unchanged |
| Preprocessing.StripPunctuation | src/preprocessing.py:8 | the punctuation pass keeps only word characters and whitespace, each taken from the input, and never lengthens the text |
| Preprocessing.RemoveNoise | src/preprocessing.py:9-15 | the three phrase passes, each on the previous pass's output, only delete characters: the result is no longer and every character comes from the input |
| Preprocessing.Collapse | src/preprocessing.py:16 | after collapsing, every whitespace character is a single space, no two whitespace characters are adjacent, and every other character comes from the input |
| Preprocessing.Trim | src/preprocessing.py:16 | `strip()` leaves no whitespace at either end and never lengthens the text |
| Preprocessing.CleanResponse | src/preprocessing.py:6-17 | the cleaned answer is no longer than the input, holds only word characters and spaces, no upper-case letter, no whitespace at either end and no two adjacent whitespace characters |
| Preprocessing.CleanWithoutWords | src/preprocessing.py:8-16 | the empty answer and every answer with no word character (punctuation and whitespace only) clean to "" |
| Preprocessing.CleanAlreadyClean | src/preprocessing.py:7-16 | an answer that is lower-case, punctuation-free, free of the noise phrases, single-spaced and trimmed comes back unchanged |
| Preprocessing.ParenthesisedNoiseVanishes | src/preprocessing.py:8-15 | punctuation is stripped before the phrase pass, so "(segun mi experiencia)" cleans to "" |
| Preprocessing.PartialWordKept | src/preprocessing.py:9-15 | the phrases match whole words only: "en mi comunidades" is returned unchanged |
| Preprocessing.CleanDropsNoiseSuffix | src/preprocessing.py:7-16 | appending any of the generator's noise endings (" (segun mi experiencia)", " en mi comunidad", " personalmente hablando") to an answer free of the noise phrases leaves its cleaned form unchanged |
| Preprocessing.CleanNotIdempotent | src/preprocessing.py:9-16 | cleaning is not idempotent: "segun  mi experiencia" (two spaces) cleans to "segun mi experiencia", which cleans to "" |
| Preprocessing.RemovePhraseNoMatch | src/preprocessing.py:14-15 | a phrase pass over text with no whole-word occurrence of the phrase changes nothing |
| Preprocessing.CollapseAppend | src/preprocessing.py:16 | whitespace collapsing works piecewise: the second piece continues the whitespace run the first piece ends in |
| PostProcess.TopWordsOf | src/post_process_topic_model.py:16-22 | a topic has a keyword string exactly when the model has a non-empty keyword list for it; the string is the first `top_n_words` words (scores dropped) joined by ", " |
| PostProcess.FirstWords | src/post_process_topic_model.py:18 | `[word for word, _ in words[:n]]` has Python slice length (negative n included) and its i-th element is the i-th word |
| PostProcess.WithoutOutliers | src/post_process_topic_model.py:11 | the filtered table has no row with topic -1 and keeps exactly the other rows |
| PostProcess.WithoutOutliersAppend | src/post_process_topic_model.py:11 | the filter distributes over concatenation, so the kept rows stay in their order |
| PostProcess.ExtractTopicInfo | src/post_process_topic_model.py:5-24 | one output row per non-outlier row of the model's topic table, in order, with topic and `Count` copied unchanged and `Top_Words` the keyword string or missing (None) for a topic without keywords; no row has topic -1 |
| PostProcess.AssignTopicsToDocs | src/post_process_topic_model.py:26-33 | on a table with rows, succeeds exactly when there are as many topics and probabilities as rows (topics checked first, each failure carrying pandas' length-mismatch message); row i is row i of the input with topic i and probability i; the zero-row case is under Left out |
| PostProcess.AssignRoundTrip | src/post_process_topic_model.py:30-32 | reading the columns back from the joined table gives the original rows, the topics and the probabilities |
| PostProcess.SummaryOfIsSummary | src/post_process_topic_model.py:43-45 | a topic's summary is the " \| "-join of the responses of a top-3 selection of its rows by probability |
| PostProcess.SummaryOf | src/post_process_topic_model.py:43-46 | the summary row carries its topic id, and a topic with no rows gets the empty summary; that it joins a top-3 selection is `SummaryOfIsSummary` |
| PostProcess.SummariesOfTopics | src/post_process_topic_model.py:40-46 | the summaries built over a list of ids are for exactly those ids other than -1, in their order |
| PostProcess.SummariesOfAreSummaries | src/post_process_topic_model.py:40-46 | every summary built over a list of ids is the join of a top-3 selection of its topic's rows |
| PostProcess.SummarizeTopics | src/post_process_topic_model.py:35-47 | one summary per distinct topic other than -1, in first-appearance order, each one the join of a top-3 selection of that topic's rows |
| PostProcess.SummaryTopicsDistinct | src/post_process_topic_model.py:40-42 | no topic is summarised twice, and a topic is summarised exactly when it occurs and is not -1 |
| PostProcess.SummaryCountWithoutOutliers | src/post_process_topic_model.py:40-42 | without an outlier row there is one summary per distinct topic |
| PostProcess.SummaryQuotesTopResponses | src/post_process_topic_model.py:43-45 | a summary quotes at most 3 responses (3, or all of the topic's rows if it has fewer), all rows of that topic from the table |
| Frame.Unique | src/post_process_topic_model.py:40 | `unique()` holds each value of the column exactly once |
| Frame.UniqueInFirstAppearanceOrder | src/post_process_topic_model.py:40 | `unique()` lists the values in order of first appearance |
| Frame.HeadLength | src/post_process_topic_model.py:18 | `[:n]` and `head(n)` keep min(n, len) rows for n >= 0 and drop -n from the end for n < 0 |
| Frame.DropOutliers | src/post_process_topic_model.py:41-42 | the `continue` on -1 keeps exactly the other ids |
| Frame.DropOutliersAppend | src/post_process_topic_model.py:40-42 | the skip distributes over concatenation, so the other ids stay in their order |
| Frame.DropOutliersDistinct | src/post_process_topic_model.py:40-42 | skipping -1 in a list of distinct ids leaves a list of distinct ids |
| Frame.OfTopic | src/post_process_topic_model.py:43 | `df[df.Topic == t]` holds every row of topic t as often as the table does, and no other row |
| Frame.OfTopicSize | src/topic_analysis.py:35 | the rows of topic t are as many as the occurrences of t in the topic column |
| Frame.CountsSumToLength | src/topic_analysis.py:35 | per-value counts over a list of distinct values covering the column sum to the column's length |
| Frame.TopK | src/post_process_topic_model.py:44 | the selection has min(k, len) rows, is a sub-multiset of the rows, has non-increasing probabilities, and no unselected row has a strictly higher probability |
| TopicAnalysis.Columns | src/topic_analysis.py:10 | the crosstab columns are the distinct topic ids, -1 included |
| TopicAnalysis.CrosstabRow | src/topic_analysis.py:10 | cell (key, t) counts the rows with that region (or group) and topic t |
| TopicAnalysis.RowCountsSum | src/topic_analysis.py:10 | over distinct columns covering every topic, a count row sums to the number of rows with its key |
| TopicAnalysis.CrosstabRowSum | src/topic_analysis.py:10-13 | a region's (or group's) count row sums to the number of rows with that key, which is at least 1 for every key present, so the normalising division never divides by zero |
| TopicAnalysis.SharesSum | src/topic_analysis.py:13 | dividing every cell by the total divides the row sum by the total |
| TopicAnalysis.NormalisedRow | src/topic_analysis.py:13 | the normalised row has one cell per topic and every cell lies in [0, 1] |
| TopicAnalysis.NormalisedRowSumsToOne | src/topic_analysis.py:13 | every normalised row sums to 1 |
| TopicAnalysis.TopicSizes | src/topic_analysis.py:35 | `value_counts()` has an entry for exactly the topics that occur, -1 included, each the number of rows of that topic and at least 1 |
| TopicAnalysis.SizesSumToLength | src/topic_analysis.py:35 | the topic sizes sum to the number of rows |
| TopicAnalysis.DistinctCountBounds | src/topic_analysis.py:38 | a non-empty column has between 1 and its length distinct values |
| TopicAnalysis.DistinctResponsesBounds | src/topic_analysis.py:38 | the number of distinct responses of an occurring topic lies between 1 and the topic's size |
| TopicAnalysis.Diversity | src/topic_analysis.py:38 | the diversity of every occurring topic lies in (0, 1] |
| TopicAnalysis.EntryOfIsRepresentative | src/topic_analysis.py:77-81 | a topic's entry is a top-`top_n` selection (Python `head` semantics) of the topic's rows |
| TopicAnalysis.EntryOf | src/topic_analysis.py:77-81 | a topic's entry is keyed by the topic and holds `head(top_n)` many rows (Python semantics for any top_n), each a row of the table with that topic |
| TopicAnalysis.EntriesAreRepresentative | src/topic_analysis.py:75-81 | the entries are one per given topic, in the given order, each a top-`top_n` selection of its topic's rows |
| TopicAnalysis.GetRepresentativeResponses | src/topic_analysis.py:71-95 | one entry per distinct topic, -1 included, in first-appearance order, each a top-`top_n` selection; the result rows are the entries' rows flattened in that order |
| TopicAnalysis.ResultRows | src/topic_analysis.py:84-91 | the nested loop emits every selected row of every entry as (Topic, Response, Probability), entry by entry |
| TopicAnalysis.FlattenLength | src/topic_analysis.py:79-91 | the result has Σ over the topics of min(top_n, size) rows (`head` semantics for any top_n) |
| TopicAnalysis.FlattenCopiesRows | src/topic_analysis.py:86-91 | every result row is (topic, response, probability) copied from one input row |
| Visualization.WordWeights | src/visualization.py:99-101 | the parsed map's keys are exactly the pieces of the `", "`-split string, each with weight 1, and it is never empty |
| Visualization.ParseJoinRoundTrip | src/visualization.py:99 | parsing a ", "-joined word list whose words contain no ", " gives exactly those words as keys (repeats collapse) |
| Visualization.ExtractThenParse | src/post_process_topic_model.py:16-19 | parsing a keyword string produced by the extraction gives exactly the selected keywords as keys |
| Visualization.TopicWords | src/visualization.py:97-101 | the dictionary built from the table has exactly the table's topics as keys |
| Visualization.LastRowWins | src/visualization.py:101 | a topic's word map comes from the last row with that topic: later rows overwrite earlier ones |
| Visualization.ParseTopWords | src/visualization.py:97-101 | fails, with the `AttributeError` message of `float.split`, exactly when some row's `Top_Words` is missing; otherwise returns the topics in first-appearance order (dict insertion order) and the word maps |
| Visualization.ParsedTableWellFormed | src/visualization.py:97-101 | the parsed dictionary lists each topic once, has exactly those keys, and every word map is non-empty |
| Visualization.WordcloudNameInjective | src/visualization.py:78 | distinct topics get distinct file names `wordcloud_topic_{id}` |
| Visualization.WordcloudName | src/visualization.py:78 | the file name is `wordcloud_topic_` followed by the topic id's decimal digits |
| Visualization.Clouds | src/visualization.py:64-78 | one cloud per topic given, in that order; `CloudAt` states which name and word map each one has |
| Visualization.GenerateWordclouds | src/visualization.py:62-78 | the loop emits, in dictionary order, one (file name, word map) pair per topic key other than -1 |
| Visualization.CloudAt | src/visualization.py:64-78 | the i-th word cloud is named after the i-th kept topic and draws that topic's word map |
| Visualization.CloudsOnePerTopic | src/visualization.py:64-78 | `wordcloud_topic_{t}` is produced exactly for the keys t other than -1, and no file name is produced twice |
| Text.SplitJoinRoundTrip | src/post_process_topic_model.py:19 | splitting a ", "-join on ", " gives back the parts when no part contains ", " |
| Text.IntToStringInjective | src/topic_labels.py:37 | the decimal rendering of an integer (as in an f-string) identifies the integer |
| Text.NatToStringRoundTrip | src/topic_labels.py:37 | the digits of a rendered natural read back as that natural |

## Left out

- All I/O is not modelled:
  - `read_csv`/`to_csv`;
  - `os.makedirs` and `os.path.join`;
  - matplotlib, seaborn and `savefig`;
  - the WordCloud layout and `generate_from_frequencies`.

  A word cloud is modelled as its file name and its word map.
- `src/modeling.py` (BERTopic and SentenceTransformer) is not part of this
  model. Its outputs (topic ids, probabilities, topic table, keyword lists)
  are parameters.
- `src/main.py`, `run_analysis` and `create_all_visualizations` are left
  out as orchestration (their catch-all error handling, printing, and the
  order of the calls). `top_n_words` and `top_n` are parameters of the
  model; the source's defaults are 5 and 3.
- The random draws of `src/synthetic_data_generator.py` are not modelled.
  Its noise endings appear as constants in `Preprocessing.NoiseSuffixes`.
- Preprocessing.CleanDropsNoiseSuffix: it is proved for every answer that
  is free of the noise phrases after lower-casing and punctuation
  stripping. Whether each of the 16 template answers meets that condition
  is not checked one by one, because the verifier cannot check the
  characters of those string literals within its resource limit.
- `preprocess_dataset` is left out as I/O.
- PostProcess.AssignTopicsToDocs: on a table with no rows, pandas does not
  report a length mismatch. Assigning a non-empty list to a column of an
  empty table rebuilds the table's index from that list, so the result has
  one row per value, with missing survey fields (and a missing topic when
  only the probabilities are non-empty). The model reports the mismatch
  instead, because its rows have no missing cells. `src/main.py` fits the
  model on the table's own responses and passes one topic and one
  probability per response, so the lengths always agree there, and an
  empty table comes with empty lists, which both pandas and the model
  accept.
- Characters above U+00FF: they are treated as neither word characters
  nor whitespace, so they are stripped, and Unicode case mapping beyond
  Latin-1 is not modelled. Python's `\w`, `\s` and `lower` are modelled
  exactly for U+0000..U+00FF.
- Probabilities are reals used only as an ordering key. Not modelled:
  - a `probs` of `None`;
  - NaN probabilities;
  - floating-point rounding.
- The mean probability per topic (`avg_probability`) and the `round(3)`
  of `evaluate_topic_quality` are floating-point arithmetic and are left
  out.
- TopicAnalysis.Diversity: it is the exact ratio, not rounded to three
  decimals.
- TopicAnalysis.NormalisedRow: the shares are exact reals, not IEEE
  doubles, so "sums to 1" holds exactly only in the model.
- Pandas sorts the crosstab rows and columns and the `value_counts` index,
  and the model does not reproduce that order. `Columns` lists topics in
  first-appearance order, and `TopicSizes` is a map.
- Frame.TopK: among rows with equal probability, the rows it picks and
  their order are one admissible outcome of the unstable sort. Every
  property about summaries and representative answers is stated for any
  selection satisfying `IsTopK`, not only for this one.
- The parsed `Top_Words` comes from `read_csv`. That call turns an empty
  string, and strings such as "NA" or "nan", into a missing value. The model
  treats only a `None` from the extraction as missing.
- Visualization.ParseTopWords: a `Topic` column read back as float (when
  it holds missing values) is not modelled. Topic ids stay integers.
- `topic_model.get_topic` returns either a list or `False`. The model
  takes a map with no entry for "no list" and treats an empty list the
  same way, as the source's truthiness test does.
- The `InsightVisualizer` class holds only its output directory. It is
  set once and used only to build file paths, so it is left out along
  with the paths.
