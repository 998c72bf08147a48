/** rag/cluster.py: pooling of the per-file summaries, the choice of the number of
    clusters by silhouette score, and the write-back of labels and embeddings onto
    the pooled records. Encoding, clustering and silhouette scoring are oracles. */
module Cluster {
  import opened Wrappers
  import opened Strings

  /** A summary record as read from JSON; `cluster` and `embedding` are what the
      write-back adds. */
  datatype SummaryRecord = SummaryRecord(
    text: string,
    keywords: Option<seq<string>>,
    cluster: Option<int>,
    embedding: Option<Embedding>)

  /** One entry of the summaries folder, in listing order. */
  datatype DirEntry = DirEntry(name: string, records: seq<SummaryRecord>)

  datatype ClusteringMethod = KMeans | Agglomerative

  datatype ClusterError =
    | UnsupportedMethod    // the `ValueError` of an unknown method name
    | MissingClusterCount  // the final fit is asked for `n_clusters=None`

  /** Skipped: fewer than two texts, nothing written. Written: the records saved.
      WrittenThenFailed: the records saved, then the elbow plot raises `ValueError`,
      because the agglomerative branch never fills `sse` while `cluster_range` is not
      empty. */
  datatype Outcome =
    | Skipped
    | Failed(error: ClusterError)
    | Written(records: seq<SummaryRecord>)
    | WrittenThenFailed(records: seq<SummaryRecord>)

  /** `model.encode` on one text. */
  type Encoder = string -> Embedding

  /** `KMeans(n_clusters=k, random_state=42).fit_predict(embeddings)`, or the
      agglomerative counterpart: one label per embedding. */
  type Clusterer = (ClusteringMethod, seq<Embedding>, nat) -> seq<int>

  /** `silhouette_score(embeddings, labels)` */
  type Silhouette = (seq<Embedding>, seq<int>) -> real

  // ---------------------------------------------------------------- pooling

  /** The records of the `.json` entries, file after file; other entries are ignored. */
  function Pooled(files: seq<DirEntry>): seq<SummaryRecord> {
    if files == [] then []
    else
      var last := files[|files| - 1];
      Pooled(files[..|files| - 1]) + (if IsJsonName(last.name) then last.records else [])
  }

  function TextsOf(rs: seq<SummaryRecord>): (ts: seq<string>)
    ensures |ts| == |rs| && forall i | 0 <= i < |rs| :: ts[i] == rs[i].text
  {
    seq(|rs|, i requires 0 <= i < |rs| => rs[i].text)
  }

  /** Pooling a listing split in two pools each part and concatenates. */
  lemma {:induction false} PooledConcat(a: seq<DirEntry>, b: seq<DirEntry>)
    ensures Pooled(a + b) == Pooled(a) + Pooled(b)
    decreases |b|
  {
    if b == [] {
      assert a + b == a;
    } else {
      var init := b[..|b| - 1];
      assert (a + b)[..|a + b| - 1] == a + init;
      PooledConcat(a, init);
    }
  }

  /** A record is pooled exactly when it belongs to a `.json` entry. */
  lemma {:induction false} PooledMembers(files: seq<DirEntry>, r: SummaryRecord)
    ensures r in Pooled(files) <==> exists f | f in files :: IsJsonName(f.name) && r in f.records
  {
    if files != [] {
      var init := files[..|files| - 1];
      var last := files[|files| - 1];
      PooledMembers(init, r);
      assert files == init + [last];
      assert forall f | f in files :: f in init || f == last;
    }
  }

  /** The `extend` loop over the listing. */
  method PoolSummaries(files: seq<DirEntry>) returns (summaries: seq<SummaryRecord>, texts: seq<string>)
    ensures summaries == Pooled(files)
    ensures texts == TextsOf(summaries)
  {
    summaries, texts := [], [];
    for n := 0 to |files|
      invariant summaries == Pooled(files[..n])
      invariant texts == TextsOf(summaries)
    {
      assert files[..n + 1][..n] == files[..n];
      var f := files[n];
      if IsJsonName(f.name) {
        summaries := summaries + f.records;
        texts := texts + TextsOf(f.records);
      }
    }
    assert files[..|files|] == files;
  }

  // ---------------------------------------------------------------- choice of k

  function Min(a: int, b: int): int { if a <= b then a else b }

  /** The end of `range(2, min(11, n))`. */
  function SweepEnd(n: nat): int { Min(11, n) }

  /** `k` is what the scan keeps: it lies in the sweep, beats the initial -1, is
      strictly better than every earlier candidate and no worse than any later one. */
  ghost predicate IsFirstBest(score: nat -> real, hi: int, k: nat) {
    && 2 <= k < hi
    && score(k) > -1.0
    && (forall j: nat | 2 <= j < k :: score(j) < score(k))
    && (forall j: nat | 2 <= j < hi :: score(j) <= score(k))
  }

  /** At most one candidate is the first best. */
  lemma FirstBestUnique(score: nat -> real, hi: int, a: nat, b: nat)
    requires IsFirstBest(score, hi, a) && IsFirstBest(score, hi, b)
    ensures a == b
  {
  }

  /** The scan `if score > best_score: best_score, best_k = score, k` over
      `range(2, min(11, n))`, starting from `best_k = None`, `best_score = -1`. */
  method SelectClusterCount(score: nat -> real, n: nat) returns (bestK: Option<nat>, bestScore: real)
    ensures bestK.None? <==> forall k: nat | 2 <= k < SweepEnd(n) :: score(k) <= -1.0
    ensures bestK.None? ==> bestScore == -1.0
    ensures bestK.Some? ==> IsFirstBest(score, SweepEnd(n), bestK.value) && bestScore == score(bestK.value)
    ensures n <= 2 ==> bestK.None?
  {
    var hi := SweepEnd(n);
    bestK, bestScore := None, -1.0;
    var k := 2;
    while k < hi
      invariant 2 <= k <= hi || (k == 2 && hi < 2)
      invariant bestK.None? ==> bestScore == -1.0 && forall j: nat | 2 <= j < k :: score(j) <= -1.0
      invariant bestK.Some? ==> IsFirstBest(score, k, bestK.value) && bestScore == score(bestK.value)
    {
      var s := score(k);
      if s > bestScore {
        bestK, bestScore := Some(k), s;
      }
      k := k + 1;
    }
    assert k == hi || (k == 2 && hi < 2);
  }

  /** Scores 0.41, 0.55, 0.55, 0.30 for k = 2..5 (six texts): the first 0.55 wins;
      the equal score for k = 4 does not replace it. */
  lemma SelectionExample()
    ensures var score := (k: nat) => if k == 2 then 0.41 else if k == 3 then 0.55 else if k == 4 then 0.55 else 0.30;
      forall k: nat :: IsFirstBest(score, SweepEnd(6), k) <==> k == 3
  {
    var score := (k: nat) => if k == 2 then 0.41 else if k == 3 then 0.55 else if k == 4 then 0.55 else 0.30;
    assert IsFirstBest(score, 6, 3);
    forall k: nat | IsFirstBest(score, 6, k) ensures k == 3 {
      FirstBestUnique(score, 6, k, 3);
    }
  }

  // ---------------------------------------------------------------- write-back

  /** The records after `s['cluster'] = labels[i]` and `s['embedding'] = embeddings[i]`:
      same count and order, the other fields untouched. */
  function Labelled(rs: seq<SummaryRecord>, labels: seq<int>, embs: seq<Embedding>): (r: seq<SummaryRecord>)
    requires |labels| >= |rs| && |embs| >= |rs|
    ensures |r| == |rs|
    ensures forall i | 0 <= i < |rs| ::
      && r[i].text == rs[i].text && r[i].keywords == rs[i].keywords
      && r[i].cluster == Some(labels[i]) && r[i].embedding == Some(embs[i])
  {
    seq(|rs|, i requires 0 <= i < |rs| => rs[i].(cluster := Some(labels[i]), embedding := Some(embs[i])))
  }

  /** The write-back loop, in place on the pooled records. */
  method WriteBack(records: array<SummaryRecord>, labels: seq<int>, embs: seq<Embedding>)
    requires |labels| >= records.Length && |embs| >= records.Length
    modifies records
    ensures records[..] == Labelled(old(records[..]), labels, embs)
  {
    ghost var before := records[..];
    for i := 0 to records.Length
      invariant records[..i] == Labelled(before[..i], labels, embs)
      invariant records[i..] == before[i..]
    {
      records[i] := records[i].(cluster := Some(labels[i]), embedding := Some(embs[i]));
      assert records[..i + 1] == records[..i] + [records[i]];
      assert before[..i + 1] == before[..i] + [before[i]];
      assert records[i + 1..] == before[i + 1..] by {
        assert forall j | i + 1 <= j < records.Length :: records[j] == old(records[j]);
      }
    }
    assert records[..] == records[..records.Length];
    assert before == before[..records.Length];
  }

  // ---------------------------------------------------------------- driver

  /** The method argument: only these two names select a clustering; any other name
      makes the source raise `ValueError`. */
  function ParseMethod(name: string): (m: Option<ClusteringMethod>)
    ensures m == Some(KMeans) <==> name == "kmeans"
    ensures m == Some(Agglomerative) <==> name == "agglomerative"
    ensures m.None? <==> name != "kmeans" && name != "agglomerative"
  {
    if name == "kmeans" then Some(KMeans)
    else if name == "agglomerative" then Some(Agglomerative)
    else None
  }

  function Embeddings(texts: seq<string>, encode: Encoder): (es: seq<Embedding>)
    ensures |es| == |texts| && forall i | 0 <= i < |texts| :: es[i] == encode(texts[i])
  {
    seq(|texts|, i requires 0 <= i < |texts| => encode(texts[i]))
  }

  /** The silhouette score of the clustering into `k` groups. */
  function ScoreOf(m: ClusteringMethod, embs: seq<Embedding>, fit: Clusterer, silhouette: Silhouette): nat -> real {
    (k: nat) => silhouette(embs, fit(m, embs, k))
  }

  /** `cluster_all_documents_summary`: pool, encode, choose k, fit, write back. */
  method ClusterAllDocuments(files: seq<DirEntry>, methodName: string, encode: Encoder, fit: Clusterer,
                             silhouette: Silhouette)
    returns (outcome: Outcome)
    requires forall m, e, k :: |fit(m, e, k)| == |e|
    ensures var n := |Pooled(files)|;
      n < 2 ==> outcome == Skipped
    ensures var n := |Pooled(files)|;
      n >= 2 && ParseMethod(methodName).None? ==> outcome == Failed(UnsupportedMethod)
    ensures var n := |Pooled(files)|;
      var embs := Embeddings(TextsOf(Pooled(files)), encode);
      n >= 2 && ParseMethod(methodName).Some? ==>
        var score := ScoreOf(ParseMethod(methodName).value, embs, fit, silhouette);
        && ((forall k: nat | 2 <= k < SweepEnd(n) :: score(k) <= -1.0) <==> outcome == Failed(MissingClusterCount))
        && (outcome.Failed? || outcome.Written? || outcome.WrittenThenFailed?)
        && (outcome.Written? ==> ParseMethod(methodName).value == KMeans)
        && (outcome.WrittenThenFailed? ==> ParseMethod(methodName).value == Agglomerative)
        && (!(forall k: nat | 2 <= k < SweepEnd(n) :: score(k) <= -1.0) ==>
              if ParseMethod(methodName).value == KMeans then outcome.Written? else outcome.WrittenThenFailed?)
    ensures |Pooled(files)| == 2 && ParseMethod(methodName).Some? ==> outcome == Failed(MissingClusterCount)
    ensures outcome.Written? || outcome.WrittenThenFailed? ==>
      var embs := Embeddings(TextsOf(Pooled(files)), encode);
      var m := ParseMethod(methodName).value;
      && ParseMethod(methodName).Some?
      && exists k: nat :: IsFirstBest(ScoreOf(m, embs, fit, silhouette), SweepEnd(|Pooled(files)|), k)
                         && outcome.records == Labelled(Pooled(files), fit(m, embs, k), embs)
  {
    var summaries, texts := PoolSummaries(files);
    if |texts| < 2 {
      return Skipped;
    }
    var embs := Embeddings(texts, encode);
    var m := ParseMethod(methodName);
    if m.None? {
      return Failed(UnsupportedMethod);
    }
    var score := ScoreOf(m.value, embs, fit, silhouette);
    var bestK, bestScore := SelectClusterCount(score, |texts|);
    if bestK.None? {
      return Failed(MissingClusterCount);
    }
    var labels := fit(m.value, embs, bestK.value);
    var records := new SummaryRecord[|summaries|](i requires 0 <= i < |summaries| => summaries[i]);
    assert records[..] == summaries;
    WriteBack(records, labels, embs);
    if m.value == KMeans {
      outcome := Written(records[..]);
    } else {
      outcome := WrittenThenFailed(records[..]);
    }
  }
}
