/** services/rag_service.py: the passages of the corpus, loaded once into a process
    cache, and the ranking of passages for a query by embedding similarity plus a
    small bonus for query terms they contain. The embedding model and the cosine
    similarity are oracles. */
module RagService {
  import opened Wrappers
  import opened Strings
  import opened Seqs

  // ---------------------------------------------------------------- preprocess_context

  /** What one line contributes: the line stripped, when it has at least ten words. */
  function KeptLine(line: string): seq<string> {
    var p := Strip(line);
    if |Words(p)| >= 10 then [p] else []
  }

  /** The stripped lines of at least ten words, in order. */
  function LongLines(lines: seq<string>): seq<string> {
    if lines == [] then []
    else KeptLine(lines[0]) + LongLines(lines[1..])
  }

  /** `preprocess_context` */
  function PreprocessContext(context: string): (r: seq<string>)
    ensures forall i | 0 <= i < |r| :: |Words(r[i])| >= 10
  {
    LongLinesAreLong(SplitOn(context, '\n'));
    LongLines(SplitOn(context, '\n'))
  }

  /** A passage is kept exactly when it is a stripped line of at least ten words. */
  lemma {:induction false} LongLinesMembers(lines: seq<string>, x: string)
    ensures x in LongLines(lines) <==> exists i | 0 <= i < |lines| :: Strip(lines[i]) == x && |Words(x)| >= 10
  {
    if lines != [] {
      LongLinesMembers(lines[1..], x);
      LongLinesMembersStep(lines, x);
    }
  }

  lemma LongLinesMembersStep(lines: seq<string>, x: string)
    requires lines != []
    requires x in LongLines(lines[1..]) <==>
      exists i | 0 <= i < |lines[1..]| :: Strip(lines[1..][i]) == x && |Words(x)| >= 10
    ensures x in LongLines(lines) <==> exists i | 0 <= i < |lines| :: Strip(lines[i]) == x && |Words(x)| >= 10
  {
    assert LongLines(lines) == KeptLine(lines[0]) + LongLines(lines[1..]);
    MappedAtHead(lines, Strip, x, |Words(x)| >= 10);
  }

  lemma LongLinesAreLong(lines: seq<string>)
    ensures forall i | 0 <= i < |LongLines(lines)| :: |Words(LongLines(lines)[i])| >= 10
  {
    forall i | 0 <= i < |LongLines(lines)| ensures |Words(LongLines(lines)[i])| >= 10 {
      LongLinesMembers(lines, LongLines(lines)[i]);
    }
  }

  /** Lines are kept in their original order: filtering a concatenation filters each
      part. */
  lemma {:induction false} LongLinesConcat(a: seq<string>, b: seq<string>)
    ensures LongLines(a + b) == LongLines(a) + LongLines(b)
  {
    if a != [] {
      assert (a + b)[0] == a[0];
      assert (a + b)[1..] == a[1..] + b;
      LongLinesConcat(a[1..], b);
      AppendAssoc(KeptLine(a[0]), LongLines(a[1..] + b), LongLines(a[1..]), LongLines(b));
    } else {
      assert a + b == b;
    }
  }

  // ---------------------------------------------------------------- load_all_corpus

  /** An item of a corpus file: `context` is required, `filename` may be missing. */
  datatype CorpusRecord = CorpusRecord(filename: Option<string>, context: string)

  /** A file matched by `*.json` in the corpus folder, with its path. */
  datatype CorpusFile = CorpusFile(path: string, items: seq<CorpusRecord>)

  datatype Passage = Passage(context: string, embedding: Embedding, filename: string)

  datatype LoadError = CorpusFilesNotFound

  /** `model.encode` */
  type Encoder = string -> Embedding

  /** `os.path.basename`: what follows the last `/`. */
  function Basename(path: string): (r: string)
    ensures '/' !in r
    ensures |r| <= |path| && r == path[|path| - |r|..]
    ensures |r| < |path| ==> path[|path| - |r| - 1] == '/'
  {
    if path == [] || path[|path| - 1] == '/' then []
    else Basename(path[..|path| - 1]) + [path[|path| - 1]]
  }

  /** The paragraphs as passages labelled `name`, each encoded with the prefix
      `"passage: "`. */
  function AsPassages(paras: seq<string>, name: string, encode: Encoder): (ps: seq<Passage>)
    ensures |ps| == |paras|
    ensures forall i | 0 <= i < |ps| :: ps[i] == Passage(paras[i], encode("passage: " + paras[i]), name)
  {
    seq(|paras|, i requires 0 <= i < |paras| => Passage(paras[i], encode("passage: " + paras[i]), name))
  }

  /** The file name a passage of `item` carries: the item's own, or the corpus file's. */
  function ItemName(path: string, item: CorpusRecord): string {
    item.filename.GetOr(Basename(path))
  }

  /** The passages of one item: its `PreprocessContext` paragraphs, written out. */
  function ItemPassages(path: string, item: CorpusRecord, encode: Encoder): seq<Passage> {
    AsPassages(PreprocessContext(item.context), ItemName(path, item), encode)
  }

  function RecordsPassages(path: string, items: seq<CorpusRecord>, encode: Encoder): seq<Passage> {
    if items == [] then []
    else RecordsPassages(path, items[..|items| - 1], encode) + ItemPassages(path, items[|items| - 1], encode)
  }

  /** Every passage of every item of every file, in that order. */
  function AllPassages(files: seq<CorpusFile>, encode: Encoder): seq<Passage> {
    if files == [] then []
    else
      var last := files[|files| - 1];
      AllPassages(files[..|files| - 1], encode) + RecordsPassages(last.path, last.items, encode)
  }

  /** The innermost loop: one passage per paragraph of an item, appended. */
  method AppendPassages(ps: seq<Passage>, paras: seq<string>, name: string, encode: Encoder)
    returns (out: seq<Passage>)
    ensures out == ps + AsPassages(paras, name, encode)
  {
    out := ps;
    for k := 0 to |paras|
      invariant out == ps + AsPassages(paras[..k], name, encode)
    {
      assert paras[..k + 1] == paras[..k] + [paras[k]];
      out := out + [Passage(paras[k], encode("passage: " + paras[k]), name)];
    }
    assert paras[..|paras|] == paras;
  }

  lemma RecordsPassagesStep(path: string, items: seq<CorpusRecord>, n: nat, encode: Encoder)
    requires n < |items|
    ensures RecordsPassages(path, items[..n + 1], encode)
      == RecordsPassages(path, items[..n], encode)
         + AsPassages(PreprocessContext(items[n].context), ItemName(path, items[n]), encode)
  {
    assert items[..n + 1][..n] == items[..n];
  }

  /** The loop over the items of one corpus file. */
  method LoadFile(file: CorpusFile, encode: Encoder) returns (ps: seq<Passage>)
    ensures ps == RecordsPassages(file.path, file.items, encode)
  {
    ps := [];
    for n := 0 to |file.items|
      invariant ps == RecordsPassages(file.path, file.items[..n], encode)
    {
      RecordsPassagesStep(file.path, file.items, n, encode);
      var item := file.items[n];
      ps := AppendPassages(ps, PreprocessContext(item.context), ItemName(file.path, item), encode);
    }
    WholePrefix(file.items);
  }

  lemma AsPassagesMembers(paras: seq<string>, name: string, encode: Encoder)
    ensures forall p | p in AsPassages(paras, name, encode) :: p.filename == name && p.context in paras
  {
    var ps := AsPassages(paras, name, encode);
    forall p | p in ps ensures p.filename == name && p.context in paras {
      var i :| 0 <= i < |ps| && ps[i] == p;
    }
  }

  lemma {:induction false} RecordsPassagesProvenance(path: string, items: seq<CorpusRecord>, encode: Encoder)
    ensures forall p | p in RecordsPassages(path, items, encode) ::
      exists item | item in items :: p.filename == ItemName(path, item) && p.context in PreprocessContext(item.context)
  {
    if items != [] {
      var init := items[..|items| - 1];
      var last := items[|items| - 1];
      RecordsPassagesProvenance(path, init, encode);
      AsPassagesMembers(PreprocessContext(last.context), ItemName(path, last), encode);
      forall p | p in RecordsPassages(path, items, encode)
        ensures exists item | item in items :: p.filename == ItemName(path, item) && p.context in PreprocessContext(item.context)
      {
        if p in RecordsPassages(path, init, encode) {
          var item :| item in init && p.filename == ItemName(path, item) && p.context in PreprocessContext(item.context);
          assert item in items;
        } else {
          assert p in ItemPassages(path, last, encode);
          assert last in items;
        }
      }
    }
  }

  /** Every cached passage names the item's file, falling back to the corpus file's
      own name, and is a kept line of that item's context. */
  lemma {:induction false} AllPassagesProvenance(files: seq<CorpusFile>, encode: Encoder)
    ensures forall p | p in AllPassages(files, encode) ::
      exists f, item | f in files && item in f.items ::
        p.filename == ItemName(f.path, item) && p.context in PreprocessContext(item.context)
  {
    if files != [] {
      var init := files[..|files| - 1];
      var last := files[|files| - 1];
      AllPassagesProvenance(init, encode);
      RecordsPassagesProvenance(last.path, last.items, encode);
      assert forall f | f in init :: f in files;
      assert last in files;
    }
  }

  /** The module-level `cached_corpus`. */
  class PassageCache {
    var cached: Option<seq<Passage>>

    constructor()
      ensures cached == None
    {
      cached := None;
    }

    /** `load_all_corpus`: a filled cache, even an empty one, is returned as it is;
        otherwise the files are read, and with no file at all the load fails and the
        cache stays unset. */
    method LoadAllCorpus(files: seq<CorpusFile>, encode: Encoder) returns (r: Result<seq<Passage>, LoadError>)
      modifies this
      ensures old(cached).Some? ==> r == Success(old(cached).value) && cached == old(cached)
      ensures old(cached).None? && files == [] ==> r == Failure(CorpusFilesNotFound) && cached == None
      ensures old(cached).None? && files != [] ==>
        r == Success(AllPassages(files, encode)) && cached == Some(AllPassages(files, encode))
    {
      if cached.Some? {
        return Success(cached.value);
      }
      if files == [] {
        return Failure(CorpusFilesNotFound);
      }
      var corpus: seq<Passage> := [];
      for n := 0 to |files|
        invariant corpus == AllPassages(files[..n], encode)
      {
        assert files[..n + 1][..n] == files[..n];
        var ps := LoadFile(files[n], encode);
        corpus := corpus + ps;
      }
      assert files[..|files|] == files;
      cached := Some(corpus);
      r := Success(corpus);
    }
  }

  // ---------------------------------------------------------------- extract_keywords

  function Count<T(==)>(xs: seq<T>, x: T): nat {
    if xs == [] then 0 else (if xs[0] == x then 1 else 0) + Count(xs[1..], x)
  }

  /** `re.findall(r'\w+', query.lower())` */
  function Tokens(query: string): (r: seq<string>)
    ensures forall i | 0 <= i < |r| :: r[i] != [] && forall k | 0 <= k < |r[i]| :: IsWordChar(r[i][k]) && !IsAsciiUpper(r[i][k])
  {
    RunsKeep(Lower(query), IsNotWordChar, c => !IsAsciiUpper(c));
    Runs(Lower(query), IsNotWordChar)
  }

  /** The counts of the distinct tokens, in order of first occurrence (the order of a
      `Counter`). */
  function TokenCounts(distinct: seq<string>, words: seq<string>): seq<real> {
    seq(|distinct|, i requires 0 <= i < |distinct| => Count(words, distinct[i]) as real)
  }

  /** `Counter(words).most_common(n)`, without the counts: `heapq.nlargest` gives
      nothing for `n <= 0`, and at most one term per distinct word otherwise. */
  function MostCommon(words: seq<string>, n: int): (r: seq<string>)
    ensures n <= 0 ==> r == []
    ensures n >= 0 ==> |r| == SliceLength(|Dedupe(words)|, n)
  {
    var distinct := Dedupe(words);
    var idx := TopRanked(TokenCounts(distinct, words), NonNegative(n));
    seq(|idx|, i requires 0 <= i < |idx| => distinct[idx[i]])
  }

  /** A count below zero asks for nothing. */
  function NonNegative(n: int): (k: nat)
    ensures n >= 0 ==> k == n
    ensures n < 0 ==> k == 0
  {
    if n < 0 then 0 else n
  }

  /** `extract_keywords(query)`, with the default of five terms. */
  function QueryKeywords(query: string): (r: seq<string>)
    ensures |r| <= 5
    ensures NoDuplicates(r) && forall i | 0 <= i < |r| :: r[i] in Tokens(query)
  {
    MostCommonDistinct(Tokens(query), 5);
    MostCommon(Tokens(query), 5)
  }

  /** The terms are distinct tokens of the query. */
  lemma MostCommonDistinct(words: seq<string>, n: int)
    ensures var r := MostCommon(words, n);
      NoDuplicates(r) && forall i | 0 <= i < |r| :: r[i] in words
  {
    var distinct := Dedupe(words);
    var idx := TopRanked(TokenCounts(distinct, words), NonNegative(n));
    var r := MostCommon(words, n);
    forall i, j | 0 <= i < j < |r| ensures r[i] != r[j] {
      assert idx[i] != idx[j];
    }
  }

  /** More frequent terms come first; equally frequent ones in order of first occurrence. */
  lemma MostCommonOrder(words: seq<string>, n: int)
    ensures var r := MostCommon(words, n);
      forall i, j | 0 <= i < j < |r| ::
        Count(words, r[i]) > Count(words, r[j])
        || (Count(words, r[i]) == Count(words, r[j]) && FirstIndex(words, r[i]) < FirstIndex(words, r[j]))
  {
    var distinct := Dedupe(words);
    var keys := TokenCounts(distinct, words);
    var idx := TopRanked(keys, NonNegative(n));
    var r := MostCommon(words, n);
    forall i, j | 0 <= i < j < |r|
      ensures Count(words, r[i]) > Count(words, r[j])
           || (Count(words, r[i]) == Count(words, r[j]) && FirstIndex(words, r[i]) < FirstIndex(words, r[j]))
    {
      assert RankedBefore(keys, idx[i], idx[j]);
    }
  }

  /** No token left out is more frequent than a term kept, and one left out that is as
      frequent first occurs later: the cut keeps the earliest of equally frequent tokens. */
  lemma MostCommonDominates(words: seq<string>, n: int)
    ensures var r := MostCommon(words, n);
      forall w, i | w in words && w !in r && 0 <= i < |r| :: Count(words, w) <= Count(words, r[i])
    ensures var r := MostCommon(words, n);
      forall w, i | w in words && w !in r && 0 <= i < |r| && Count(words, w) == Count(words, r[i]) ::
        FirstIndex(words, r[i]) < FirstIndex(words, w)
  {
    var distinct := Dedupe(words);
    var keys := TokenCounts(distinct, words);
    var idx := TopRanked(keys, NonNegative(n));
    var r := MostCommon(words, n);
    forall w, i | w in words && w !in r && 0 <= i < |r|
      ensures Count(words, w) <= Count(words, r[i])
      ensures Count(words, w) == Count(words, r[i]) ==> FirstIndex(words, r[i]) < FirstIndex(words, w)
    {
      assert w in distinct;
      var k :| 0 <= k < |distinct| && distinct[k] == w;
      forall m | 0 <= m < |idx| ensures idx[m] != k {
        assert r[m] == distinct[idx[m]] && r[m] in r;
      }
      assert k !in idx;
      assert RankedBefore(keys, idx[i], k);
    }
  }

  /** Together: distinct tokens of the query, more frequent first, equally frequent in
      order of first occurrence, no token left out more frequent than one kept, and of
      equally frequent tokens the earliest are kept. */
  lemma MostCommonSpec(words: seq<string>, n: int)
    ensures var r := MostCommon(words, n);
      && NoDuplicates(r)
      && (forall i | 0 <= i < |r| :: r[i] in words)
      && (forall i, j | 0 <= i < j < |r| ::
            Count(words, r[i]) > Count(words, r[j])
            || (Count(words, r[i]) == Count(words, r[j]) && FirstIndex(words, r[i]) < FirstIndex(words, r[j])))
      && (forall w, i | w in words && w !in r && 0 <= i < |r| :: Count(words, w) <= Count(words, r[i]))
      && (forall w, i | w in words && w !in r && 0 <= i < |r| && Count(words, w) == Count(words, r[i]) ::
            FirstIndex(words, r[i]) < FirstIndex(words, w))
  {
    MostCommonDistinct(words, n);
    MostCommonOrder(words, n);
    MostCommonDominates(words, n);
  }

  /** Every term is a token of the lower-cased query: a non-empty run of its word
      characters. */
  lemma QueryKeywordsAreTokens(query: string)
    ensures forall t | t in QueryKeywords(query) :: t in Tokens(query)
    ensures forall t | t in QueryKeywords(query) :: t != [] && forall k | 0 <= k < |t| :: IsWordChar(t[k]) && !IsAsciiUpper(t[k])
  {
    MostCommonDistinct(Tokens(query), 5);
  }

  // ---------------------------------------------------------------- get_similar_contexts

  datatype ScoredContext = ScoredContext(score: real, context: string, filename: string)

  /** `util.cos_sim(a, b).item()` */
  type Similarity = (Embedding, Embedding) -> real

  /** `sum(1 for kw in keywords if kw in text)` */
  function CountMatches(keywords: seq<string>, text: string): (c: nat)
    ensures c <= |keywords|
    ensures c == |keywords| <==> forall k | k in keywords :: Contains(text, k)
    ensures c == 0 <==> forall k | k in keywords :: !Contains(text, k)
  {
    if keywords == [] then 0
    else
      assert forall k | k in keywords :: k == keywords[0] || k in keywords[1..];
      (if Contains(text, keywords[0]) then 1 else 0) + CountMatches(keywords[1..], text)
  }

  lemma RatioBounds(c: real, n: real)
    requires 0.0 <= c <= n && n > 0.0
    ensures 0.0 <= c / n <= 1.0
    ensures c / n == 1.0 <==> c == n
  {
  }

  /** The share of the query terms found in the lower-cased passage; 0 with no terms. */
  function MatchRatio(keywords: seq<string>, context: string): (r: real)
    ensures 0.0 <= r <= 1.0
    ensures keywords == [] ==> r == 0.0
    ensures keywords != [] ==> (r == 1.0 <==> forall k | k in keywords :: Contains(Lower(context), k))
  {
    if keywords == [] then 0.0
    else
      var c := CountMatches(keywords, Lower(context));
      RatioBounds(c as real, |keywords| as real);
      (c as real) / (|keywords| as real)
  }

  /** The cosine similarity plus at most 0.05 for the query terms found. */
  function Score(cos: real, keywords: seq<string>, context: string): (s: real)
    ensures cos <= s <= cos + 0.05
  {
    cos + 0.05 * MatchRatio(keywords, context)
  }

  /** The bonus cannot reverse a raw-score gap greater than 0.05. */
  lemma GapNeverReversed(cosA: real, cosB: real, keywords: seq<string>, a: string, b: string)
    requires cosA > cosB + 0.05
    ensures Score(cosA, keywords, a) > Score(cosB, keywords, b)
  {
  }

  function Scored(corpus: seq<Passage>, query: Embedding, keywords: seq<string>, sim: Similarity): (s: seq<ScoredContext>)
    ensures |s| == |corpus|
    ensures forall i | 0 <= i < |s| ::
      s[i] == ScoredContext(Score(sim(query, corpus[i].embedding), keywords, corpus[i].context),
                            corpus[i].context, corpus[i].filename)
  {
    seq(|corpus|, i requires 0 <= i < |corpus| =>
      ScoredContext(Score(sim(query, corpus[i].embedding), keywords, corpus[i].context), corpus[i].context, corpus[i].filename))
  }

  /** The scoring loop. */
  method ScoreContexts(corpus: seq<Passage>, query: Embedding, keywords: seq<string>, sim: Similarity)
    returns (scored: seq<ScoredContext>)
    ensures scored == Scored(corpus, query, keywords, sim)
  {
    scored := [];
    for n := 0 to |corpus|
      invariant scored == Scored(corpus[..n], query, keywords, sim)
    {
      var c := corpus[n];
      var score := Score(sim(query, c.embedding), keywords, c.context);
      scored := scored + [ScoredContext(score, c.context, c.filename)];
    }
    assert corpus[..|corpus|] == corpus;
  }

  function Scores(scored: seq<ScoredContext>): (keys: seq<real>)
    ensures |keys| == |scored| && forall i | 0 <= i < |keys| :: keys[i] == scored[i].score
  {
    seq(|scored|, i requires 0 <= i < |scored| => scored[i].score)
  }

  /** `sorted(scored, key=score, reverse=True)[:top_k]` */
  function Rank(scored: seq<ScoredContext>, topK: int): (r: seq<ScoredContext>)
    ensures |r| == SliceLength(|scored|, topK)
    ensures forall i, j | 0 <= i < j < |r| :: r[i].score >= r[j].score
  {
    var idx := TopRanked(Scores(scored), topK);
    seq(|idx|, i requires 0 <= i < |idx| => scored[idx[i]])
  }

  /** The ranking is made of distinct scored passages: each result is the passage at a
      position of its own, equal scores keep corpus order, and no passage left out
      scored higher than one kept, nor scored the same and came earlier. */
  lemma RankSpec(scored: seq<ScoredContext>, topK: int)
    ensures var idx := TopRanked(Scores(scored), topK);
      var r := Rank(scored, topK);
      && (forall i | 0 <= i < |r| :: r[i] == scored[idx[i]])
      && (forall i, j | 0 <= i < j < |r| && r[i].score == r[j].score :: idx[i] < idx[j])
      && (forall k, i | 0 <= k < |scored| && k !in idx && 0 <= i < |r| :: scored[k].score <= r[i].score)
      && (forall k, i | 0 <= k < |scored| && k !in idx && 0 <= i < |r| && scored[k].score == r[i].score ::
            idx[i] < k)
  {
    var idx := TopRanked(Scores(scored), topK);
    var r := Rank(scored, topK);
    forall i, j | 0 <= i < j < |r| && r[i].score == r[j].score ensures idx[i] < idx[j] {
      assert RankedBefore(Scores(scored), idx[i], idx[j]);
    }
  }

  /** `get_similar_contexts`: load (or reuse) the passages, score each against the
      query, keep the `top_k` best. */
  method GetSimilarContexts(cache: PassageCache, query: string, topK: int, files: seq<CorpusFile>,
                            encode: Encoder, sim: Similarity)
    returns (r: Result<seq<ScoredContext>, LoadError>)
    modifies cache
    ensures old(cache.cached).None? && files == [] ==> r == Failure(CorpusFilesNotFound) && cache.cached == None
    ensures cache.cached == (if old(cache.cached).Some? then old(cache.cached)
                             else if files == [] then None else Some(AllPassages(files, encode)))
    ensures cache.cached.Some? ==>
      r == Success(Rank(Scored(cache.cached.value, encode("query: " + query), QueryKeywords(query), sim), topK))
  {
    var corpus := cache.LoadAllCorpus(files, encode);
    if corpus.Failure? {
      return Failure(corpus.error);
    }
    var keywords := QueryKeywords(query);
    var queryEmbedding := encode("query: " + query);
    var scored := ScoreContexts(corpus.value, queryEmbedding, keywords, sim);
    r := Success(Rank(scored, topK));
  }
}
