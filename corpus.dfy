/** rag/corpus.py: the single corpus built from the clustered files, one entry per
    item, numbered from 1 in file-then-item order. */
module Corpus {
  import opened Wrappers
  import opened Strings
  import Seqs

  /** An item of a clustered file; every field may be missing. */
  datatype ClusterItem = ClusterItem(
    cluster: Option<int>,
    keywords: Option<seq<string>>,
    text: Option<string>,
    embedding: Option<Embedding>)

  /** One entry of the clusters folder, in listing order. */
  datatype ClusterFile = ClusterFile(name: string, items: seq<ClusterItem>)

  datatype CorpusEntry = CorpusEntry(
    id: nat,
    filename: string,
    cluster: int,
    summary: string,
    context: string,
    embedding: Embedding)

  /** The entry built for one item: missing fields take their defaults, and the
      summary is the keywords joined by ", ". */
  function MakeEntry(id: nat, filename: string, item: ClusterItem): CorpusEntry {
    CorpusEntry(id, filename, item.cluster.GetOr(-1), JoinWith(item.keywords.GetOr([]), ", "),
                item.text.GetOr(""), item.embedding.GetOr([]))
  }

  /** The items of one file, each with the file's name. */
  function Tagged(f: ClusterFile): (t: seq<(string, ClusterItem)>)
    ensures |t| == |f.items| && forall i | 0 <= i < |t| :: t[i] == (f.name, f.items[i])
  {
    seq(|f.items|, i requires 0 <= i < |f.items| => (f.name, f.items[i]))
  }

  /** The items of the `.json` files, file after file, each with its file's name. */
  function Sources(files: seq<ClusterFile>): seq<(string, ClusterItem)> {
    if files == [] then []
    else
      var last := files[|files| - 1];
      Sources(files[..|files| - 1]) + (if IsJsonName(last.name) then Tagged(last) else [])
  }

  /** Entries for `sources`, numbered from `start`. */
  function Numbered(start: nat, sources: seq<(string, ClusterItem)>): (es: seq<CorpusEntry>)
    ensures |es| == |sources|
    ensures forall i | 0 <= i < |es| :: es[i] == MakeEntry(start + i, sources[i].0, sources[i].1)
  {
    seq(|sources|, i requires 0 <= i < |sources| => MakeEntry(start + i, sources[i].0, sources[i].1))
  }

  /** What `build_corpus_for_all_documents` writes to `corpus.json`. */
  function CorpusOf(files: seq<ClusterFile>): (es: seq<CorpusEntry>)
    ensures |es| == |Sources(files)|
    ensures forall i | 0 <= i < |es| :: es[i].id == i + 1 && es[i].filename == Sources(files)[i].0
    ensures forall i | 0 <= i < |es| ::
      var it := Sources(files)[i].1;
      && es[i].cluster == (if it.cluster.Some? then it.cluster.value else -1)
      && es[i].summary == (if it.keywords.Some? then JoinWith(it.keywords.value, ", ") else "")
      && es[i].context == (if it.text.Some? then it.text.value else "")
      && es[i].embedding == (if it.embedding.Some? then it.embedding.value else [])
  {
    Numbered(1, Sources(files))
  }

  lemma NumberedConcat(start: nat, a: seq<(string, ClusterItem)>, b: seq<(string, ClusterItem)>)
    ensures Numbered(start, a + b) == Numbered(start, a) + Numbered(start + |a|, b)
  {
    var l, r := Numbered(start, a + b), Numbered(start, a) + Numbered(start + |a|, b);
    assert |l| == |r|;
    forall i | 0 <= i < |l| ensures l[i] == r[i] {
      if i >= |a| {
        assert (a + b)[i] == b[i - |a|];
      }
    }
  }

  /** The inner loop over one file's items: one entry each, numbered on from `corpusId`. */
  method AppendEntries(corpus: seq<CorpusEntry>, corpusId: nat, file: ClusterFile)
    returns (out: seq<CorpusEntry>, nextId: nat)
    requires corpusId == |corpus| + 1
    ensures out == corpus + Numbered(corpusId, Tagged(file))
    ensures nextId == |out| + 1
  {
    out, nextId := corpus, corpusId;
    var tagged := Tagged(file);
    for k := 0 to |file.items|
      invariant out == corpus + Numbered(corpusId, tagged[..k])
      invariant nextId == |out| + 1
    {
      var entry := MakeEntry(nextId, file.name, file.items[k]);
      NumberedConcat(corpusId, tagged[..k], [tagged[k]]);
      assert tagged[..k + 1] == tagged[..k] + [tagged[k]];
      out := out + [entry];
      nextId := nextId + 1;
    }
    assert tagged[..|file.items|] == tagged;
  }

  /** The nested loops with the running `corpus_id`. */
  method BuildCorpus(files: seq<ClusterFile>) returns (corpus: seq<CorpusEntry>)
    ensures corpus == CorpusOf(files)
  {
    corpus := [];
    var corpusId := 1;
    for n := 0 to |files|
      invariant corpus == Numbered(1, Sources(files[..n]))
      invariant corpusId == |corpus| + 1
    {
      assert files[..n + 1][..n] == files[..n];
      var file := files[n];
      if !IsJsonName(file.name) {
        continue;
      }
      NumberedConcat(1, Sources(files[..n]), Tagged(file));
      corpus, corpusId := AppendEntries(corpus, corpusId, file);
    }
    assert files[..|files|] == files;
  }

  // ---------------------------------------------------------------- properties

  /** Number of items over the `.json` files. */
  function ItemCount(files: seq<ClusterFile>): nat {
    if files == [] then 0
    else (if IsJsonName(files[0].name) then |files[0].items| else 0) + ItemCount(files[1..])
  }

  lemma {:induction false} SourcesConcat(a: seq<ClusterFile>, b: seq<ClusterFile>)
    ensures Sources(a + b) == Sources(a) + Sources(b)
    decreases |b|
  {
    if b == [] {
      assert a + b == a;
    } else {
      var init := b[..|b| - 1];
      var last := b[|b| - 1];
      assert (a + b)[..|a + b| - 1] == a + init;
      assert (a + b)[|a + b| - 1] == last;
      SourcesConcat(a, init);
      Seqs.AppendAssoc(Sources(a), Sources(b), Sources(init), if IsJsonName(last.name) then Tagged(last) else []);
    }
  }

  /** One entry per item of a `.json` file; other files contribute nothing. */
  lemma {:induction false} CorpusSize(files: seq<ClusterFile>)
    ensures |CorpusOf(files)| == ItemCount(files)
  {
    if files != [] {
      CorpusSize(files[1..]);
      SourcesConcat([files[0]], files[1..]);
      assert [files[0]] + files[1..] == files;
      assert Sources([files[0]]) == Sources([]) + (if IsJsonName(files[0].name) then Tagged(files[0]) else []);
    }
  }

  /** The ids are 1..N in order, so they are distinct and strictly increasing. */
  lemma CorpusIds(files: seq<ClusterFile>)
    ensures forall i | 0 <= i < |CorpusOf(files)| :: CorpusOf(files)[i].id == i + 1
    ensures forall i, j | 0 <= i < j < |CorpusOf(files)| :: CorpusOf(files)[i].id < CorpusOf(files)[j].id
  {
  }

  /** A `.json` file adds one contiguous block of entries carrying its name, numbered
      on from the entries before it; any other file adds nothing. */
  lemma CorpusAppendFile(files: seq<ClusterFile>, f: ClusterFile)
    ensures IsJsonName(f.name) ==>
      var before := CorpusOf(files);
      var block := Numbered(|before| + 1, Tagged(f));
      && CorpusOf(files + [f]) == before + block
      && forall i | 0 <= i < |block| :: block[i].filename == f.name
    ensures !IsJsonName(f.name) ==> CorpusOf(files + [f]) == CorpusOf(files)
  {
    assert (files + [f])[..|files|] == files;
    if IsJsonName(f.name) {
      NumberedConcat(1, Sources(files), Tagged(f));
    }
  }
}
