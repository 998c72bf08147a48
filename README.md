# K-Medi Guide AI: retrieval pipeline, modelled in Dafny

K-Medi Guide AI is a medicine-information chatbot. Its retrieval side is a batch pipeline
plus one service:

1. `rag/preprocess.py` cleans the paragraphs of each source document. It drops boilerplate
   and stop phrases, then merges each question with its answer and joins neighbours whose
   embeddings are similar. The merge threshold comes from a sweep of merged counts.
2. `rag/keyword_summary.py` attaches up to five keywords to every paragraph. The keywords
   come from a KeyBERT extractor, from the question part and the answer part separately.
3. `rag/cluster.py` pools every summary and chooses the number of clusters by silhouette
   score. It writes each record's label and embedding back.
4. `rag/corpus.py` numbers every clustered record into one corpus.
5. `services/rag_service.py` splits the corpus into passages of at least ten words and
   caches them once per process. For each query it ranks passages by embedding similarity
   plus a small bonus for query terms they contain.
6. `services/gpt_service.py` decides whether a reply needs translating, and splices a
   medicine name into a translated sentence.

The model has one Dafny module per source file. The Python idioms they share are separate
modules:

- `Strings`: `strip`, `lower`, `split`, `join`, the regex character classes, `in` and `find`;
- `Seqs`: slicing, `dict.fromkeys`, and stable descending sorting;
- `Wrappers`: `Option` and `Result`.

Every learned model and numeric library is a function-typed parameter. Every statement
holds for any behaviour of them, except that Cluster.ClusterAllDocuments assumes the
fitting oracle returns one label per embedding (see "## Left out"):

- the sentence encoder;
- cosine similarity and embedding averaging;
- KeyBERT, which may raise;
- k-means/agglomerative fitting and the silhouette score;
- the chat-completion translator, which may raise.

Imperative source code stays imperative:

- the merge loop, the per-file loops and the corpus numbering are `method`s with loop
  invariants;
- each method is proved equal to a specification function, and the properties are lemmas
  about that function;
- the label write-back works in place on an `array`;
- the process-wide `cached_corpus` is a field of the class `RagService.PassageCache`.

## Model

| member | source | states |
|---|---|---|
| Strings.Lower | rag/keyword_summary.py:26 | `lower()` keeps the length and leaves no upper-case ASCII letter; each upper-case letter becomes its lower-case partner and every other character stays as it was |
| Strings.LowerIdempotent | rag/keyword_summary.py:26 | lower-casing an already lower-cased text changes nothing |
| Strings.LowerOfLowercase | services/gpt_service.py:26 | a string without upper-case ASCII letters (such as "한국어") is its own lower-case form |
| Strings.TrimStart | rag/keyword_summary.py:26 | `lstrip()` is a suffix of its input that does not start with whitespace; everything removed is whitespace |
| Strings.TrimEnd | rag/keyword_summary.py:26 | `rstrip()` is a prefix of its input that does not end with whitespace; everything removed is whitespace |
| Strings.StripSpec | services/rag_service.py:21 | `strip()` is a slice of its input with no whitespace at either end, and everything outside the slice is whitespace |
| Strings.StripOfTrimmed | rag/keyword_summary.py:26 | stripping a string that has no whitespace at either end changes nothing |
| Strings.CollapseWhitespace | rag/preprocess.py:47 | after `re.sub(r"\s+", " ", s)` the only whitespace is single spaces, and a non-empty input gives a non-empty result that starts with the input's first character unless that is whitespace |
| Strings.CollapseShape | rag/keyword_summary.py:25 | `re.sub(r"\s+", " ", s)` is the input's words joined by single spaces, with one space in front when the input starts with whitespace and one at the end when it ends with whitespace after a word |
| Strings.CollapseIsJoinOfWords | rag/keyword_summary.py:25-26 | `re.sub(r"\s+", " ", s).strip()` equals `" ".join(s.split())` |
| Strings.CollapseKeepsNonSpace | rag/keyword_summary.py:25 | collapsing keeps every non-whitespace character in order, adds only spaces and never lengthens the text |
| Strings.CollapseOfSingleSpaced | rag/preprocess.py:47 | collapsing a single-spaced text changes nothing |
| Strings.Runs | services/rag_service.py:54 | `re.findall(r"\w+", s)` and `s.split()` give non-empty runs that contain no separator |
| Strings.RunsAtSeparator | services/rag_service.py:21 | a separator character splits: the runs of `a + c + b` are the runs of `a` followed by the runs of `b` |
| Strings.RunsOfWord | services/rag_service.py:21 | a non-empty text without separators is a single run: itself |
| Strings.RunsKeep | services/rag_service.py:54 | `re.findall` returns pieces of its input, so a property of every input character holds of every character of every run |
| Strings.RunsEmpty | services/rag_service.py:21 | there are no runs exactly when every character is a separator |
| Strings.SplitOn | services/rag_service.py:21 | `s.split(sep)` gives at least one part, and no part contains `sep` |
| Strings.SplitOnJoin | rag/keyword_summary.py:60-62 | joining the parts of `s.split(sep)` with `sep` gives back `s` |
| Strings.JoinAppend | rag/preprocess.py:88 | appending `" " + t` to a joined buffer is the join of the buffer's parts followed by `t` |
| Strings.JoinConcat | rag/preprocess.py:73-93 | the join of two non-empty lists is the two joins with the separator between them |
| Strings.EndsWithChar | rag/preprocess.py:56 | `endswith(c)` holds exactly when the last character is `c` |
| Strings.IndexOf | services/gpt_service.py:49-55 | `re.search` of a literal gives the first position where it occurs, or no position at all when it occurs nowhere |
| Seqs.Dedupe | rag/keyword_summary.py:72 | `list(dict.fromkeys(xs))` holds each element of `xs` exactly once, in order of first occurrence |
| Seqs.TakeOfDedupe | rag/keyword_summary.py:72-73 | `list(dict.fromkeys(xs))[:n]` has no repeats and holds only elements of `xs` |
| Seqs.ListOfSet | rag/keyword_summary.py:39 | `list(set)` holds every member exactly once, in an unspecified order |
| Seqs.StableRank | services/rag_service.py:78 | a stable descending sort is a permutation of the positions that puts larger keys first and keeps equal keys in input order |
| Seqs.TopRanked | services/rag_service.py:78 | the first `n` positions of that sort are distinct and ordered that way; every position left out ranks after every one kept, so it has no larger key, and one with an equal key comes later in the input |
| Preprocess.MatchesAnyIff | rag/preprocess.py:23-37 | the loop over the boilerplate patterns finds a match exactly when some pattern matches |
| Preprocess.IsIrrelevant | rag/preprocess.py:23-37 | `is_irrelevant` holds exactly when one of the boilerplate patterns matches the text |
| Preprocess.CleanParagraph | rag/preprocess.py:44-52 | `clean_paragraph` returns None exactly when the cleaned text is shorter than 5 characters, matches a boilerplate pattern or holds a stop phrase; otherwise it returns the cleaned text, which has only word characters, whitespace, Hangul and `?`, with no whitespace other than single spaces |
| Preprocess.CleanParagraphIdempotent | rag/preprocess.py:44-52 | cleaning a paragraph that survived cleaning returns it unchanged |
| Preprocess.CleanParagraphs | rag/preprocess.py:11-20 | a document keeps at most as many paragraphs as it has, and each kept one satisfies the guarantees of `clean_paragraph` |
| Preprocess.CleanParagraphsAreClean | rag/preprocess.py:11-20 | every paragraph a document keeps satisfies all the guarantees of `clean_paragraph` |
| Preprocess.LoadParagraphs | rag/preprocess.py:11-20 | the paragraph loop keeps, in order, the cleaned paragraphs of the non-blank stripped inputs |
| Preprocess.QuestionMarkIffStrip | rag/preprocess.py:56 | reading the last non-whitespace character is the same test as `strip().endswith("?")` |
| Preprocess.NumberedQuestionEndsWithMark | rag/preprocess.py:56 | every text matched by `^\d+\.\s.*\?$` also ends with `?` once stripped |
| Preprocess.QuestionIffEndsWithMark | rag/preprocess.py:55-56 | `is_question(t)` holds exactly when `t.strip().endswith("?")`; the numbered-item pattern never adds a case |
| Preprocess.ExtendBuffer | rag/preprocess.py:79-92 | the inner loop absorbs paragraphs up to the greedy extension end, and the buffer text is their " "-join |
| Preprocess.NextRun | rag/preprocess.py:65-94 | one outer step emits the " "-join of one run with the source of the run's first paragraph, and the cursor moves to the run's end |
| Preprocess.MergeSimilarParagraphs | rag/preprocess.py:58-95 | the merge loop returns exactly the run-by-run merge of the input |
| Preprocess.MergePartition | rag/preprocess.py:58-95 | the output partitions the input into contiguous, non-empty runs in order; each output text is the " "-join of its run, carrying the source of the run's first paragraph |
| Preprocess.ExtensionEndSpec | rag/preprocess.py:82-92 | greedy extension absorbs each paragraph whose similarity to the running average reaches the threshold, and stops at the first that falls below it |
| Preprocess.MergeQuestionRule | rag/preprocess.py:69-76 | a question that is not the last paragraph is merged with exactly the next one, whatever their similarity |
| Preprocess.MergeGreedyRule | rag/preprocess.py:77-94 | every other run absorbs each following paragraph whose similarity to the running buffer reaches the threshold, and the paragraph after the run falls below it |
| Preprocess.MergeCount | rag/preprocess.py:58-95 | the merge gives between 1 and `len(paragraphs)` outputs, and none for an empty input |
| Preprocess.MergeKeepsText | rag/preprocess.py:58-95 | merging neither loses nor adds text: the " "-join of the outputs equals that of the inputs |
| Preprocess.MergeBelowThreshold | rag/preprocess.py:77-94 | with no question and no similarity reaching the threshold, every paragraph stays on its own |
| Preprocess.ExtendsToEnd | rag/preprocess.py:82-90 | when every similarity reaches the threshold, greedy extension runs to the end |
| Preprocess.MergeAboveThreshold | rag/preprocess.py:77-94 | when every similarity reaches the threshold and the first paragraph is not a question, the document becomes one paragraph |
| Preprocess.SteepestDropBefore | rag/preprocess.py:100-104 | among the qualifying transitions (next count above 3) it picks one with the smallest difference, the first such, or none when no transition qualifies |
| Preprocess.OptimalThreshold | rag/preprocess.py:97-106 | `calculate_optimal_threshold` returns the threshold before the steepest qualifying drop, or 0.8 when no transition qualifies |
| Preprocess.OptimalThresholdExample | rag/preprocess.py:97-106 | counts `[10,10,9,9,7,3,3]` give the fourth threshold: the steeper drop 7 → 3 does not qualify |
| Preprocess.SweepMergedCounts | rag/preprocess.py:126-131 | the sweep records, for each threshold, the number of merged paragraphs |
| Preprocess.ProcessDocument | rag/preprocess.py:117-145 | a document with no cleaned paragraph is skipped; otherwise it is merged at the threshold chosen from its own sweep |
| KeywordSummary.ReplaceDisallowed | rag/keyword_summary.py:24 | only characters of `[가-힣a-zA-Z0-9\s]` and spaces remain; those of the class stay where they are, and a text made only of them is unchanged |
| KeywordSummary.ReplaceDisallowedIdempotent | rag/keyword_summary.py:24 | replacing twice is the same as replacing once |
| KeywordSummary.CleanTextIsClean | rag/keyword_summary.py:22-26 | `clean_text` yields only Hangul, lower-case ASCII letters, digits and single spaces, with no space at either end |
| KeywordSummary.CleanTextOfCleaned | rag/keyword_summary.py:22-26 | `clean_text` leaves an already cleaned text unchanged |
| KeywordSummary.CleanTextIdempotent | rag/keyword_summary.py:22-26 | `clean_text(clean_text(s)) == clean_text(s)` |
| KeywordSummary.CleanKeywords | rag/keyword_summary.py:32-39 | `clean_keywords` returns, each exactly once, the cleaned candidates that contain a word that is not a stopword, and nothing else |
| KeywordSummary.ContentWordIsLong | rag/keyword_summary.py:28-30 | a text with a non-stopword word has at least three characters, since every word of two or fewer characters is a stopword |
| KeywordSummary.KeptKeywordsAreLong | rag/keyword_summary.py:32-39 | every kept keyword is a cleaned text of at least three characters, so an empty candidate never survives |
| KeywordSummary.ExtractKeywords | rag/keyword_summary.py:41-56 | `extract_keywords` returns nothing when the extractor raises; otherwise it returns `top_n` of the kept keywords (by slice rules), each once |
| KeywordSummary.SplitQuestionAnswer | rag/keyword_summary.py:58-66 | without a `?` the text is the question and the answer is empty; with one, the question is a non-empty prefix of the text that ends with its first `?`, and the answer is the stripped rest |
| KeywordSummary.SplitQuestionSpec | rag/keyword_summary.py:58-62 | with a `?`, the question is the prefix of the text through its first `?` |
| KeywordSummary.SplitWithoutMark | rag/keyword_summary.py:63-65 | without a `?`, the whole text is the question and the answer is empty |
| KeywordSummary.SplitAnswerSpec | rag/keyword_summary.py:58-62 | with a `?`, the answer is the stripped rest of the text after the question |
| KeywordSummary.SplitQuestionIsSplit | rag/keyword_summary.py:60-61 | the question equals `text.split("?")[0] + "?"` |
| KeywordSummary.SplitAnswerIsSplit | rag/keyword_summary.py:60-62 | the answer equals `"?".join(text.split("?")[1:]).strip()` |
| KeywordSummary.ExtractKeywordsFromQa | rag/keyword_summary.py:68-73 | the answer goes to the extractor only when it is not empty; the question's keywords come first, then the answer's, each once, cut to `top_n` |
| KeywordSummary.QaKeywordsAreLong | rag/keyword_summary.py:68-73 | every keyword a paragraph gets is a cleaned text of at least three characters |
| KeywordSummary.SummarizeText | rag/keyword_summary.py:84-88 | one summary keeps its text and gets at most five distinct keywords extracted from it |
| KeywordSummary.SummarizeParagraphs | rag/keyword_summary.py:79-88 | blank texts are skipped and the others keep their text and order; each gets valid question/answer keywords |
| Cluster.PooledConcat | rag/cluster.py:16-21 | pooling a listing split in two pools each part and concatenates the results |
| Cluster.PooledMembers | rag/cluster.py:16-21 | a record is pooled exactly when it belongs to a `.json` entry |
| Cluster.PoolSummaries | rag/cluster.py:16-21 | the listing loop pools the records of the `.json` entries in order, with their texts alongside |
| Cluster.ParseMethod | rag/cluster.py:33-61 | "kmeans" and "agglomerative" select their method, and every other name selects none |
| Cluster.FirstBestUnique | rag/cluster.py:41-43 | at most one k is the first best of a sweep |
| Cluster.SelectClusterCount | rag/cluster.py:29-43 | the scan picks the first k in `range(2, min(11, n))` with the highest score above -1; it picks none exactly when every score is at most -1, and always when n <= 2 |
| Cluster.SelectionExample | rag/cluster.py:41-43 | scores 0.41, 0.55, 0.55, 0.30 for k = 2..5 pick k = 3: a later equal score does not replace the best one |
| Cluster.Labelled | rag/cluster.py:66-68 | the write-back keeps the record count, the order, the text and the keywords, and sets each record's cluster and embedding |
| Cluster.WriteBack | rag/cluster.py:66-68 | the in-place loop leaves the array equal to the labelled records |
| Cluster.ClusterAllDocuments | rag/cluster.py:9-82 | under two texts nothing happens; an unknown method fails; the final fit fails when no k was chosen, which is always the case with exactly two texts; otherwise the records carry the labels of the fit at the first best k; once some k scores above -1, k-means always ends with the records written, and the agglomerative branch always writes them and then fails in the elbow plot |
| Corpus.NumberedConcat | rag/corpus.py:15-35 | numbering a concatenation numbers the second part on from the end of the first |
| Corpus.AppendEntries | rag/corpus.py:25-35 | the loop over one file's items appends one entry per item, numbered on from the running `corpus_id`, and leaves the id one past the last entry |
| Corpus.BuildCorpus | rag/corpus.py:14-35 | the nested loops with the running `corpus_id` build exactly the numbered entries of the `.json` files |
| Corpus.SourcesConcat | rag/corpus.py:17-25 | the items of a listing split in two are the items of each part |
| Corpus.CorpusOf | rag/corpus.py:14-35 | the corpus has one entry per item of a `.json` file, numbered 1, 2, … in order, each with the name of its file; a missing `cluster`, `text` or `embedding` becomes -1, `""` or `[]`, and the summary is the keywords joined by `", "`, or `""` without keywords |
| Corpus.CorpusSize | rag/corpus.py:17-35 | the corpus has one entry per item of a `.json` file |
| Corpus.CorpusIds | rag/corpus.py:15-35 | ids run 1, 2, …, N in order, so they are distinct and increasing |
| Corpus.CorpusAppendFile | rag/corpus.py:17-35 | a `.json` file adds one contiguous block of entries with its name, numbered on from the earlier entries; any other file adds nothing |
| RagService.PreprocessContext | services/rag_service.py:17-22 | every passage `preprocess_context` keeps has at least ten words |
| RagService.LongLinesMembers | services/rag_service.py:17-22 | a passage is kept exactly when it is a stripped line of at least ten words |
| RagService.LongLinesConcat | services/rag_service.py:21 | lines are kept in their original order |
| RagService.Basename | services/rag_service.py:40 | `os.path.basename` is the suffix after the last `/` |
| RagService.AsPassages | services/rag_service.py:41-47 | one passage per paragraph, in order, encoded with the prefix `"passage: "` and labelled with the item's file name |
| RagService.AppendPassages | services/rag_service.py:41-47 | the innermost loop appends exactly those passages |
| RagService.LoadFile | services/rag_service.py:39-47 | the loop over one file's items yields the passages of each item in turn |
| RagService.AsPassagesMembers | services/rag_service.py:41-47 | every passage of an item has the item's file name and is one of its kept lines |
| RagService.RecordsPassagesProvenance | services/rag_service.py:39-47 | every passage of a file comes from one of its items |
| RagService.AllPassagesProvenance | services/rag_service.py:36-47 | every cached passage has its item's `filename`, or the corpus file's own name if it has none, and is a kept line of that item's context |
| RagService.PassageCache.LoadAllCorpus | services/rag_service.py:24-51 | a filled cache is returned unchanged, even an empty one; with no corpus file the load fails and the cache stays unset; otherwise every passage is loaded and cached |
| RagService.Tokens | services/rag_service.py:54 | every token of the lower-cased query is a non-empty run of word characters, none of them an upper-case ASCII letter |
| RagService.QueryKeywords | services/rag_service.py:53-57 | `extract_keywords` returns at most five distinct tokens of the query |
| RagService.MostCommonDistinct | services/rag_service.py:53-57 | the query terms are distinct tokens of the query |
| RagService.MostCommonOrder | services/rag_service.py:56 | more frequent terms come first, and equally frequent terms appear in order of first occurrence |
| RagService.MostCommonDominates | services/rag_service.py:56 | no token left out is more frequent than a term kept, and one as frequent occurs first later in the query |
| RagService.MostCommonSpec | services/rag_service.py:53-57 | `Counter(words).most_common(n)` satisfies all three of these at once |
| RagService.MostCommon | services/rag_service.py:56 | `most_common(n)` gives `min(n, number of distinct tokens)` terms, and none at all when `n <= 0` |
| RagService.QueryKeywordsAreTokens | services/rag_service.py:53-57 | every query term is a token of the lower-cased query, and so a non-empty run of word characters without upper-case ASCII letters |
| RagService.CountMatches | services/rag_service.py:72 | the match count is at most the number of terms; it equals that number exactly when all terms occur, and is 0 exactly when none does |
| RagService.RatioBounds | services/rag_service.py:73 | a count divided by a larger positive total lies in [0, 1] and is 1 only when the two are equal |
| RagService.MatchRatio | services/rag_service.py:72-73 | the ratio lies in [0, 1]; it is 0 without query terms, and otherwise 1 exactly when every term occurs in the lower-cased passage |
| RagService.Score | services/rag_service.py:69-74 | the score is the cosine plus a bonus between 0 and 0.05 |
| RagService.GapNeverReversed | services/rag_service.py:74 | the bonus cannot reverse a cosine gap larger than 0.05 |
| RagService.Scored | services/rag_service.py:66-76 | one scored triple per passage, in corpus order, each with that passage's score, context and file name |
| RagService.ScoreContexts | services/rag_service.py:65-76 | the scoring loop builds exactly those triples |
| RagService.Rank | services/rag_service.py:78 | the ranking has `top_k` entries by slice rules, in non-increasing score order |
| RagService.RankSpec | services/rag_service.py:78 | each ranked entry is a distinct scored passage; equal scores keep corpus order, no passage left out scored higher than one kept, and one left out with an equal score comes later in the corpus |
| RagService.GetSimilarContexts | services/rag_service.py:59-78 | passages are loaded or reused as `load_all_corpus` does, a load failure is passed on, and the result is the `top_k` ranking of the scored passages for the query's terms and embedding |
| GptService.TranslateToUserLang | services/gpt_service.py:24-40 | an unknown, empty or Korean session gets the Korean text back; a successful translation for any other language gives its stripped reply; any other result is the Korean text, so a failed call falls back to it |
| GptService.TranslatorUnusedForKorean | services/gpt_service.py:26-27 | for a Korean or unset session, which translator is used makes no difference |
| GptService.TranslationIsTrimmed | services/gpt_service.py:37-40 | the result is either the Korean text or has no whitespace at either end |
| GptService.KoreanSessionNotTranslated | services/gpt_service.py:26-27 | a session recorded as "한국어" gets its text back untranslated |
| GptService.Marker | services/gpt_service.py:47-58 | only 영어, 일본어 and 중국어 have a marker, and it is not empty |
| GptService.ReplaceTranslatedName | services/gpt_service.py:42-65 | the input comes back unchanged for any other language or when the marker is absent; otherwise the result is the insert followed by the input from the marker's first occurrence |
| GptService.SpliceKeepsMarker | services/gpt_service.py:60-62 | after a splice the result starts with the insert, then the marker, and the rest is a suffix of the translation |
| GptService.FirstIsInsideThis | services/gpt_service.py:49 | the search for "is" in "This is" finds position 2, inside "This" |
| GptService.EnglishMarkerInsideWord | services/gpt_service.py:47-62 | the English marker matches as a raw substring: "This is" with insert "Tylenol " becomes "Tylenol is is" |

## Left out

- File and process plumbing is not modelled:
  - reading `.docx` and JSON, `glob`/`os.listdir`, `os.makedirs`, and writing JSON output;
  - the listing of a folder is an input sequence in listing order;
  - a missing JSON key is an `Option` field.
- Logging and `print` are left out. The matplotlib elbow plot is not drawn and the SSE
  list (`kmeans.inertia_`) is not computed; only the plot's failure on the agglomerative
  branch is modelled, as below.
- The learned models and numeric libraries are oracles, as listed above. Floating point is
  modelled as `real`, so `np.arange(0.5, 0.96, 0.05)` is the exact list 0.50, 0.55, …,
  0.95. The unused `merged_embedding` of the question branch is not computed.
- Only ASCII letters, ASCII digits, `_` and the precomposed Hangul syllables count as word
  characters. Python's `\w` and `\d` also cover other Unicode letters and digits.
  Whitespace follows Python's `str.isspace` set, the one `\s`, `split()` and `strip()` use.
- Strings.Lower, GptService.TranslateToUserLang, RagService.Tokens and RagService.MatchRatio
  only lower-case ASCII letters. Python also lower-cases other letters: U+212A KELVIN SIGN
  becomes `k`, so a query or passage holding it can match differently, and a non-ASCII
  upper-case language name is not lower-cased as Python would do it.
- Preprocess.IsIrrelevant models each `.*w1.*w2.*` pattern as "the words occur one after
  another on the first line", which is what `re.match` with `.` (no newline) checks.
- The skip of `~$` lock files and of non-`.docx` names in the preprocessing script is not
  modelled. `ProcessDocument` handles one document given its file name and raw paragraphs.
- KeywordSummary.CleanKeywords leaves the order of `list(set)` open, because Python orders
  a set of strings by string hashes. Only membership and distinctness are stated, and
  `extract_keywords` may return any `top_n` of the kept keywords.
- `ENGLISH_STOP_WORDS` is a parameter, not the scikit-learn list.
- Cluster.ClusterAllDocuments models the exception of `KMeans(n_clusters=None)` /
  `AgglomerativeClustering(n_clusters=None)` as the outcome `Failed(MissingClusterCount)`
  and does not state which exception the library raises. Both clustering methods share one
  oracle, with the method as argument.
- Cluster.ClusterAllDocuments models the agglomerative branch as `WrittenThenFailed`: the
  JSON is written, then `plt.plot(list(cluster_range), sse)` fails because that branch
  never fills `sse`. Which exception matplotlib raises (a `ValueError` for lists of
  unequal length) is not stated.
- A corpus file's `item['context']` is required in the source and is a plain field here.
  The `KeyError` of a missing `context` is not modelled.
- Cluster.SummaryRecord's `text` is also a plain field. The `KeyError` that `s['text']`
  raises for a summary record without `text` (rag/cluster.py:21) is not modelled.
- Cluster.ClusterAllDocuments requires the fitting oracle to return one label per
  embedding, as scikit-learn's `fit_predict` does. With any other oracle nothing is
  stated.
- The route handlers, the GPT fallback, `extract_medcine_name`, the prompt text and the
  session store's writers are outside this model. The store is a read-only map here.

## Notes on the design

- For the counts `[10,10,9,9,7,3,3]`, `calculate_optimal_threshold` returns
  `thresholds[3]` (0.65 for a sweep starting at 0.50), not the 0.8 fallback. The drop
  7 → 3 ends at a count of 3, which is not above 3, so it does not qualify. The steepest
  qualifying drop is then 9 → 7 at index 3. This is Preprocess.OptimalThresholdExample.
- `sorted(..., reverse=True)` and `Counter.most_common` are stable, and ties keep input
  order. Both are modelled by one stable descending rank (`Seqs.StableRank`). Its ties
  statement is part of RagService.RankSpec and RagService.MostCommonOrder.
