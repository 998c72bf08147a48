/** rag/preprocess.py: cleaning the raw paragraphs of a document, the merge pass that
    joins a question with its answer and neighbours that an embedding oracle finds
    similar, and the choice of merge threshold from a sweep of merged counts. */
module Preprocess {
  import opened Wrappers
  import opened Strings
  import opened Seqs

  /** `{"source": filename, "text": ...}` */
  datatype Paragraph = Paragraph(source: string, text: string)

  /** The sentence-embedding model and numpy's float arithmetic, as oracles. */
  datatype EmbeddingModel = EmbeddingModel(
    encode: string -> Embedding,                   // model.encode
    similarity: (Embedding, Embedding) -> real,    // cosine_similarity(a, b)[0][0]
    average: (Embedding, Embedding) -> Embedding)  // (a + b) / 2

  // ---------------------------------------------------------------- cleaning

  /** One of the boilerplate patterns of `is_irrelevant`, as `re.match` applies it. */
  datatype Pattern =
    | Prefix(prefix: string)       // r"^word.*"
    | InOrder(words: seq<string>)  // r".*w1.*w2.*...": the words in this order

  const IrrelevantPatterns: seq<Pattern> := [
    Prefix("안녕하세요"), Prefix("오늘은"), Prefix("포스팅"), Prefix("읽어주셔서"),
    Prefix("다음 시간"), InOrder(["공감", "댓글", "부탁"]), InOrder(["링크", "참고"]),
    InOrder(["광고", "포함"])]

  const StopPhrases: seq<string> :=
    ["안녕하세요", "읽어주셔서", "포스팅", "공감", "댓글", "팔로우", "협찬", "광고", "다음 시간에"]

  /** `s` holds the words in this order, one after the other without overlap. Taking
      the first occurrence each time leaves the longest rest, so this is exactly
      whether `.*w1.*w2...` matches. */
  predicate ContainsInOrder(s: string, words: seq<string>)
    decreases |words|
  {
    if words == [] then true
    else match IndexOf(s, words[0])
      case None => false
      case Some(i) => ContainsInOrder(s[i + |words[0]|..], words[1..])
  }

  /** `.` does not match a newline, so a `.*`-pattern can only match on the first line. */
  function FirstLine(s: string): string {
    SplitOn(s, '\n')[0]
  }

  predicate Matches(p: Pattern, text: string) {
    match p
    case Prefix(w) => StartsWith(text, w)
    case InOrder(ws) => ContainsInOrder(FirstLine(text), ws)
  }

  /** Some pattern of `pats` matches `text`. */
  predicate MatchesAny(pats: seq<Pattern>, text: string) {
    pats != [] && (Matches(pats[0], text) || MatchesAny(pats[1..], text))
  }

  /** Some phrase of `phrases` occurs in `text`. */
  predicate ContainsAny(phrases: seq<string>, text: string) {
    phrases != [] && (Contains(text, phrases[0]) || ContainsAny(phrases[1..], text))
  }

  /** The recursion tries the patterns in turn: it holds exactly when one of them
      matches. */
  lemma {:induction false} MatchesAnyIff(pats: seq<Pattern>, text: string)
    ensures MatchesAny(pats, text) <==> exists i | 0 <= i < |pats| :: Matches(pats[i], text)
    decreases |pats|
  {
    if pats != [] {
      MatchesAnyIff(pats[1..], text);
      if exists i | 0 <= i < |pats| :: Matches(pats[i], text) {
        var i :| 0 <= i < |pats| && Matches(pats[i], text);
        if i > 0 {
          assert pats[1..][i - 1] == pats[i];
        }
      }
      if exists j | 0 <= j < |pats| - 1 :: Matches(pats[1..][j], text) {
        var j :| 0 <= j < |pats| - 1 && Matches(pats[1..][j], text);
        assert pats[j + 1] == pats[1..][j];
      }
    }
  }

  /** `is_irrelevant`: some boilerplate pattern matches. */
  predicate IsIrrelevant(text: string): (b: bool)
    ensures b <==> exists i | 0 <= i < |IrrelevantPatterns| :: Matches(IrrelevantPatterns[i], text)
  {
    MatchesAnyIff(IrrelevantPatterns, text);
    MatchesAny(IrrelevantPatterns, text)
  }

  /** `contains_irrelevant_phrase` */
  predicate ContainsIrrelevantPhrase(text: string) {
    ContainsAny(StopPhrases, text)
  }

  /** The characters the substitution `[^\w\s가-힣?]` keeps. */
  predicate KeptByCleaning(c: char) {
    IsWordChar(c) || IsSpace(c) || IsHangulSyllable(c) || c == '?'
  }

  function RemoveDisallowed(s: string): (r: string)
    ensures forall i | 0 <= i < |r| :: KeptByCleaning(r[i])
  {
    if s == [] then []
    else (if KeptByCleaning(s[0]) then [s[0]] else []) + RemoveDisallowed(s[1..])
  }

  /** The two substitutions of `clean_paragraph`. */
  function CleanedText(text: string): string {
    CollapseWhitespace(RemoveDisallowed(text))
  }

  /** `clean_paragraph`: the cleaned text, or None when it is shorter than five
      characters, matches a boilerplate pattern or holds a stop phrase. What it keeps
      is word characters, Hangul, `?` and single spaces. */
  function CleanParagraph(text: string): (r: Option<string>)
    ensures var t := CleanedText(text);
      r.None? <==> |t| < 5 || IsIrrelevant(t) || ContainsIrrelevantPhrase(t)
    ensures r.Some? ==> && r.value == CleanedText(text)
                        && |r.value| >= 5
                        && SingleSpaced(r.value)
                        && (forall i | 0 <= i < |r.value| :: KeptByCleaning(r.value[i]))
  {
    var t := CleanedText(text);
    CollapseKeepsNonSpace(RemoveDisallowed(text));
    if |t| < 5 then None
    else if IsIrrelevant(t) || ContainsIrrelevantPhrase(t) then None
    else Some(t)
  }

  lemma {:induction false} RemoveDisallowedOfKept(s: string)
    requires forall i | 0 <= i < |s| :: KeptByCleaning(s[i])
    ensures RemoveDisallowed(s) == s
  {
    if s != [] {
      RemoveDisallowedOfKept(s[1..]);
      assert s == [s[0]] + s[1..];
    }
  }

  /** Cleaning a paragraph that survived cleaning gives it back unchanged. */
  lemma CleanParagraphIdempotent(text: string)
    requires CleanParagraph(text).Some?
    ensures CleanParagraph(CleanParagraph(text).value) == CleanParagraph(text)
  {
    var c := CleanParagraph(text).value;
    RemoveDisallowedOfKept(c);
    CollapseOfSingleSpaced(c);
    assert CleanedText(c) == c;
  }

  /** What `load_paragraphs_from_docx` keeps of one raw paragraph. */
  function KeptParagraph(raw: string): seq<string> {
    var stripped := Strip(raw);
    if stripped == "" then []
    else match CleanParagraph(stripped)
      case Some(c) => if c != "" then [c] else []
      case None => []
  }

  /** What `load_paragraphs_from_docx` keeps of a document: at most one cleaned
      paragraph per raw one, each meeting the guarantees of `clean_paragraph`. */
  function CleanParagraphs(raws: seq<string>): (cs: seq<string>)
    ensures |cs| <= |raws|
    ensures forall k | 0 <= k < |cs| :: IsCleanParagraph(cs[k])
  {
    if raws == [] then []
    else
      KeptParagraphIsClean(raws[|raws| - 1]);
      CleanParagraphs(raws[..|raws| - 1]) + KeptParagraph(raws[|raws| - 1])
  }

  /** One raw paragraph yields at most one paragraph, and a clean one. */
  lemma KeptParagraphIsClean(raw: string)
    ensures |KeptParagraph(raw)| <= 1
    ensures forall k | 0 <= k < |KeptParagraph(raw)| :: IsCleanParagraph(KeptParagraph(raw)[k])
  {
    var last := KeptParagraph(raw);
    if last != [] {
      var c := CleanParagraph(Strip(raw));
      assert last == [c.value];
      assert IsCleanParagraph(c.value);
    }
  }

  /** What cleaning promises holds of every paragraph a document keeps. */
  predicate IsCleanParagraph(c: string) {
    && |c| >= 5 && SingleSpaced(c) && !IsIrrelevant(c) && !ContainsIrrelevantPhrase(c)
    && (forall i | 0 <= i < |c| :: KeptByCleaning(c[i]))
  }

  /** Every paragraph a document keeps is a cleaned paragraph. */
  lemma {:induction false} CleanParagraphsAreClean(raws: seq<string>)
    ensures forall k | 0 <= k < |CleanParagraphs(raws)| :: IsCleanParagraph(CleanParagraphs(raws)[k])
  {
    if raws != [] {
      var init := raws[..|raws| - 1];
      CleanParagraphsAreClean(init);
      var last := KeptParagraph(raws[|raws| - 1]);
      if last != [] {
        var c := CleanParagraph(Strip(raws[|raws| - 1]));
        assert last == [c.value];
        assert IsCleanParagraph(c.value);
      }
    }
  }

  /** `load_paragraphs_from_docx` on the texts of a document's paragraphs. */
  method LoadParagraphs(raws: seq<string>) returns (cleaned: seq<string>)
    ensures cleaned == CleanParagraphs(raws)
  {
    cleaned := [];
    for n := 0 to |raws|
      invariant cleaned == CleanParagraphs(raws[..n])
    {
      CleanParagraphsStep(raws, n);
      var raw := Strip(raws[n]);
      if raw != "" {
        var c := CleanParagraph(raw);
        if c.Some? && c.value != "" {
          cleaned := cleaned + [c.value];
        }
      }
    }
    WholePrefix(raws);
  }

  lemma CleanParagraphsStep(raws: seq<string>, n: nat)
    requires n < |raws|
    ensures CleanParagraphs(raws[..n + 1]) == CleanParagraphs(raws[..n]) + KeptParagraph(raws[n])
  {
    assert raws[..n + 1][..n] == raws[..n];
  }

  /** `is_question`: `text.strip().endswith("?")` or the numbered-item pattern. */
  predicate IsQuestion(text: string) {
    StrippedEndsWithMark(text) || NumberedQuestion(text)
  }

  /** `text.strip().endswith("?")`, read from the end: the last character that is not
      whitespace is `?` (QuestionMarkIffStrip). */
  predicate StrippedEndsWithMark(t: string) {
    |t| > 0 && (if IsSpace(t[|t| - 1]) then StrippedEndsWithMark(t[..|t| - 1]) else t[|t| - 1] == '?')
  }

  /** `re.match(r"^\d+\.\s.*\?$", text)`: one digit, then the rest of the pattern. */
  predicate NumberedQuestion(text: string) {
    |text| > 0 && IsAsciiDigit(text[0]) && AfterDigit(text[1..])
  }

  /** `\d*\.\s.*\?$` */
  predicate AfterDigit(r: string) {
    |r| > 0 &&
    if IsAsciiDigit(r[0]) then AfterDigit(r[1..])
    else r[0] == '.' && |r| > 1 && IsSpace(r[1]) && LineEndsWithMark(r[2..])
  }

  /** `.*\?$`: `.` does not match a newline, and `$` matches at the end or before a
      final newline. */
  predicate LineEndsWithMark(r: string) {
    r == "?" || r == "?\n" || (|r| > 0 && r[0] != '\n' && LineEndsWithMark(r[1..]))
  }

  /** The last character and, when it is a newline, the one before it. */
  predicate EndsInMark(r: string) {
    (|r| >= 1 && r[|r| - 1] == '?') || (|r| >= 2 && r[|r| - 2] == '?' && r[|r| - 1] == '\n')
  }

  lemma {:induction false} LineEndsWithMarkEnd(r: string)
    requires LineEndsWithMark(r)
    ensures EndsInMark(r)
  {
    if r != "?" && r != "?\n" {
      LineEndsWithMarkEnd(r[1..]);
    }
  }

  lemma {:induction false} AfterDigitEnd(r: string)
    requires AfterDigit(r)
    ensures EndsInMark(r)
  {
    if IsAsciiDigit(r[0]) {
      AfterDigitEnd(r[1..]);
    } else {
      LineEndsWithMarkEnd(r[2..]);
    }
  }

  /** Reading the last non-whitespace character is `strip` followed by `endswith`. */
  lemma {:induction false} QuestionMarkIffStrip(t: string)
    ensures StrippedEndsWithMark(t) <==> EndsWith(Strip(t), "?")
    decreases |t|
  {
    EndsWithChar(Strip(t), '?');
    if |t| > 0 {
      var n := |t|;
      if IsSpace(t[n - 1]) {
        QuestionMarkIffStrip(t[..n - 1]);
        EndsWithChar(Strip(t[..n - 1]), '?');
        assert TrimEnd(t) == TrimEnd(t[..n - 1]);
      } else {
        assert TrimEnd(t) == t;
        var s := Strip(t);
        assert s == TrimStart(t);
        assert |s| > 0 && s[|s| - 1] == t[n - 1];
      }
    }
  }

  lemma NumberedQuestionEndsWithMark(text: string)
    requires NumberedQuestion(text)
    ensures StrippedEndsWithMark(text)
  {
    var r := text[1..];
    AfterDigitEnd(r);
    var n := |text|;
    assert r[|r| - 1] == text[n - 1];
    if text[n - 1] != '?' {
      assert r[|r| - 2] == text[n - 2];
      assert StrippedEndsWithMark(text[..n - 1]);
    }
  }

  /** The numbered-item pattern never adds a case: a text is a question exactly when it
      ends with `?` once stripped. */
  lemma QuestionIffEndsWithMark(text: string)
    ensures IsQuestion(text) <==> EndsWith(Strip(text), "?")
  {
    QuestionMarkIffStrip(text);
    if NumberedQuestion(text) {
      NumberedQuestionEndsWithMark(text);
    }
  }

  // ---------------------------------------------------------------- merge pass

  function Texts(ps: seq<Paragraph>): (ts: seq<string>)
    ensures |ts| == |ps| && forall i | 0 <= i < |ps| :: ts[i] == ps[i].text
  {
    seq(|ps|, i requires 0 <= i < |ps| => ps[i].text)
  }

  /** `model.encode(texts)` */
  function Encodings(ts: seq<string>, m: EmbeddingModel): (es: seq<Embedding>)
    ensures |es| == |ts|
  {
    seq(|ts|, i requires 0 <= i < |ts| => m.encode(ts[i]))
  }

  /** `is_question` of each text. */
  function Questions(ts: seq<string>): (qs: seq<bool>)
    ensures |qs| == |ts| && forall i | 0 <= i < |ts| :: qs[i] == IsQuestion(ts[i])
  {
    seq(|ts|, i requires 0 <= i < |ts| => IsQuestion(ts[i]))
  }

  /** Where greedy extension stops once it has reached `j` with `buffer` as the
      buffer's embedding. */
  function ExtensionEnd(embs: seq<Embedding>, m: EmbeddingModel, threshold: real, j: nat, buffer: Embedding): (e: nat)
    requires j <= |embs|
    ensures j <= e <= |embs|
    decreases |embs| - j
  {
    if j < |embs| && m.similarity(buffer, embs[j]) >= threshold
    then ExtensionEnd(embs, m, threshold, j + 1, m.average(buffer, embs[j]))
    else j
  }

  /** The running average the buffer holds once it has absorbed `embs[i..j]`. */
  function BufferEmbedding(embs: seq<Embedding>, m: EmbeddingModel, i: nat, j: nat): Embedding
    requires i < j <= |embs|
    decreases j - i
  {
    if j == i + 1 then embs[i] else m.average(BufferEmbedding(embs, m, i, j - 1), embs[j - 1])
  }

  /** One past the last paragraph of the run that starts at cursor `i`, given which
      texts are questions (`qs`) and their embeddings. */
  function RunEnd(qs: seq<bool>, embs: seq<Embedding>, m: EmbeddingModel, threshold: real, i: nat): (e: nat)
    requires |qs| == |embs| && i < |embs|
    ensures i < e <= |embs|
  {
    if qs[i] && i + 1 < |embs| then i + 2
    else ExtensionEnd(embs, m, threshold, i + 1, embs[i])
  }

  /** The merged paragraphs the loop emits from cursor `i` on. */
  function MergeFrom(ps: seq<Paragraph>, qs: seq<bool>, embs: seq<Embedding>, m: EmbeddingModel, threshold: real, i: nat): seq<Paragraph>
    requires |qs| == |embs| == |ps| && i <= |ps|
    decreases |ps| - i
  {
    if i == |ps| then []
    else
      var e := RunEnd(qs, embs, m, threshold, i);
      [Paragraph(ps[i].source, JoinWith(Texts(ps)[i..e], " "))] + MergeFrom(ps, qs, embs, m, threshold, e)
  }

  /** What `merge_similar_paragraphs` returns. */
  function Merge(ps: seq<Paragraph>, m: EmbeddingModel, threshold: real): seq<Paragraph> {
    var ts := Texts(ps);
    MergeFrom(ps, Questions(ts), Encodings(ts, m), m, threshold, 0)
  }

  /** The cursor positions the loop visits from `i` on, followed by `|ps|`. */
  function RunBounds(qs: seq<bool>, embs: seq<Embedding>, m: EmbeddingModel, threshold: real, i: nat): (b: seq<nat>)
    requires |qs| == |embs| && i <= |embs|
    ensures |b| >= 1 && b[0] == i && b[|b| - 1] == |embs|
    ensures forall r | 0 <= r < |b| :: i <= b[r] <= |embs|
    ensures forall r | 0 <= r < |b| - 1 :: b[r] < |embs| && b[r] < b[r + 1] == RunEnd(qs, embs, m, threshold, b[r])
    decreases |embs| - i
  {
    if i == |embs| then [i] else [i] + RunBounds(qs, embs, m, threshold, RunEnd(qs, embs, m, threshold, i))
  }

  /** The inner loop of `merge_similar_paragraphs`: starting from paragraph `i` alone,
      absorb following paragraphs while their similarity to the running buffer reaches
      the threshold. */
  method ExtendBuffer(texts: seq<string>, embs: seq<Embedding>, m: EmbeddingModel, threshold: real, i: nat)
    returns (bufferText: string, j: nat)
    requires |embs| == |texts| && i < |texts|
    ensures j == ExtensionEnd(embs, m, threshold, i + 1, embs[i])
    ensures bufferText == JoinWith(texts[i..j], " ")
  {
    bufferText := texts[i];
    var bufferEmbedding := embs[i];
    j := i + 1;
    assert texts[i..j] == [texts[i]];
    while j < |texts|
      invariant i < j <= |texts|
      invariant bufferText == JoinWith(texts[i..j], " ")
      invariant ExtensionEnd(embs, m, threshold, j, bufferEmbedding) == ExtensionEnd(embs, m, threshold, i + 1, embs[i])
      decreases |texts| - j
    {
      var sim := m.similarity(bufferEmbedding, embs[j]);
      if sim >= threshold {
        assert texts[i..j + 1] == texts[i..j] + [texts[j]];
        JoinAppend(texts[i..j], texts[j], " ");
        bufferText := bufferText + " " + texts[j];
        bufferEmbedding := m.average(bufferEmbedding, embs[j]);
        j := j + 1;
      } else {
        break;
      }
    }
  }

  /** One pass of the outer loop of `merge_similar_paragraphs` at cursor `i`: a question
      that is not last takes the next paragraph, anything else extends greedily. */
  method NextRun(ps: seq<Paragraph>, texts: seq<string>, embs: seq<Embedding>, m: EmbeddingModel, threshold: real, i: nat)
    returns (merged: Paragraph, next: nat)
    requires texts == Texts(ps) && |embs| == |ps| && i < |ps|
    ensures next == RunEnd(Questions(texts), embs, m, threshold, i)
    ensures merged == Paragraph(ps[i].source, JoinWith(texts[i..next], " "))
  {
    var current := texts[i];
    var source := ps[i].source;
    if IsQuestion(current) && i + 1 < |texts| {
      var mergedText := current + " " + texts[i + 1];
      assert texts[i..i + 2] == [current] + [texts[i + 1]];
      merged, next := Paragraph(source, mergedText), i + 2;
    } else {
      var bufferText, j := ExtendBuffer(texts, embs, m, threshold, i);
      merged, next := Paragraph(source, bufferText), j;
    }
  }

  /** `merge_similar_paragraphs`: the loop builds exactly Merge. */
  method MergeSimilarParagraphs(ps: seq<Paragraph>, m: EmbeddingModel, threshold: real) returns (merged: seq<Paragraph>)
    ensures merged == Merge(ps, m, threshold)
  {
    var texts := Texts(ps);
    var embs := Encodings(texts, m);
    ghost var qs := Questions(texts);
    merged := [];
    var i := 0;
    while i < |texts|
      invariant 0 <= i <= |texts|
      invariant merged + MergeFrom(ps, qs, embs, m, threshold, i) == MergeFrom(ps, qs, embs, m, threshold, 0)
      decreases |texts| - i
    {
      var paragraph, next := NextRun(ps, texts, embs, m, threshold, i);
      assert MergeFrom(ps, qs, embs, m, threshold, i) == [paragraph] + MergeFrom(ps, qs, embs, m, threshold, next);
      merged := merged + [paragraph];
      i := next;
    }
  }

  // ---------------------------------------------------------------- properties of the merge

  /** One output paragraph per run. */
  lemma {:induction false} MergeRunCount(ps: seq<Paragraph>, qs: seq<bool>, embs: seq<Embedding>, m: EmbeddingModel, threshold: real, i: nat)
    requires |qs| == |embs| == |ps| && i <= |ps|
    ensures |RunBounds(qs, embs, m, threshold, i)| == |MergeFrom(ps, qs, embs, m, threshold, i)| + 1
    decreases |ps| - i
  {
    if i < |ps| {
      MergeRunCount(ps, qs, embs, m, threshold, RunEnd(qs, embs, m, threshold, i));
    }
  }

  /** Run `r` of the output starting from cursor `i`. */
  lemma {:induction false} MergeRunAt(ps: seq<Paragraph>, qs: seq<bool>, embs: seq<Embedding>, m: EmbeddingModel, threshold: real, i: nat, r: nat)
    requires |qs| == |embs| == |ps| && i <= |ps|
    requires r < |MergeFrom(ps, qs, embs, m, threshold, i)|
    ensures var out := MergeFrom(ps, qs, embs, m, threshold, i);
            var b := RunBounds(qs, embs, m, threshold, i);
      r + 1 < |b| && out[r] == Paragraph(ps[b[r]].source, JoinWith(Texts(ps)[b[r]..b[r + 1]], " "))
    decreases r
  {
    var e := RunEnd(qs, embs, m, threshold, i);
    var out, out' := MergeFrom(ps, qs, embs, m, threshold, i), MergeFrom(ps, qs, embs, m, threshold, e);
    var b, b' := RunBounds(qs, embs, m, threshold, i), RunBounds(qs, embs, m, threshold, e);
    assert out == [Paragraph(ps[i].source, JoinWith(Texts(ps)[i..e], " "))] + out';
    assert b == [i] + b';
    if r > 0 {
      MergeRunAt(ps, qs, embs, m, threshold, e, r - 1);
      assert out[r] == out'[r - 1];
    }
  }

  /** The output splits the input into contiguous, non-empty runs, in order: run r
      covers `ps[b[r]..b[r+1]]`, its text is the " "-join of theirs and its source is
      that of the run's first paragraph. */
  lemma MergePartition(ps: seq<Paragraph>, qs: seq<bool>, embs: seq<Embedding>, m: EmbeddingModel, threshold: real, i: nat)
    requires |qs| == |embs| == |ps| && i <= |ps|
    ensures var out := MergeFrom(ps, qs, embs, m, threshold, i);
            var b := RunBounds(qs, embs, m, threshold, i);
      && |b| == |out| + 1
      && (forall r | 0 <= r < |out| :: out[r] == Paragraph(ps[b[r]].source, JoinWith(Texts(ps)[b[r]..b[r + 1]], " ")))
  {
    MergeRunCount(ps, qs, embs, m, threshold, i);
    forall r | 0 <= r < |MergeFrom(ps, qs, embs, m, threshold, i)| {
      MergeRunAt(ps, qs, embs, m, threshold, i, r);
    }
  }

  lemma {:induction false} ExtensionEndSpec(embs: seq<Embedding>, m: EmbeddingModel, threshold: real, i: nat, j: nat)
    requires i < j <= |embs|
    ensures var e := ExtensionEnd(embs, m, threshold, j, BufferEmbedding(embs, m, i, j));
      && (forall k | j <= k < e :: m.similarity(BufferEmbedding(embs, m, i, k), embs[k]) >= threshold)
      && (e < |embs| ==> m.similarity(BufferEmbedding(embs, m, i, e), embs[e]) < threshold)
    decreases |embs| - j
  {
    if j < |embs| && m.similarity(BufferEmbedding(embs, m, i, j), embs[j]) >= threshold {
      assert BufferEmbedding(embs, m, i, j + 1) == m.average(BufferEmbedding(embs, m, i, j), embs[j]);
      ExtensionEndSpec(embs, m, threshold, i, j + 1);
    }
  }

  /** A question that is not the last paragraph takes exactly the next one into its
      run, whatever the similarity: run `r` is then that pair, joined by " ". */
  lemma MergeQuestionRule(ps: seq<Paragraph>, qs: seq<bool>, embs: seq<Embedding>, m: EmbeddingModel, threshold: real, r: nat)
    requires |qs| == |embs| == |ps|
    requires r < |MergeFrom(ps, qs, embs, m, threshold, 0)|
    requires var b := RunBounds(qs, embs, m, threshold, 0);
      r + 1 < |b| && qs[b[r]] && b[r] + 1 < |ps|
    ensures var out := MergeFrom(ps, qs, embs, m, threshold, 0);
            var b := RunBounds(qs, embs, m, threshold, 0);
      b[r + 1] == b[r] + 2 && out[r].text == ps[b[r]].text + " " + ps[b[r] + 1].text
  {
    var b := RunBounds(qs, embs, m, threshold, 0);
    MergeRunAt(ps, qs, embs, m, threshold, 0, r);
    JoinPair(ps, b[r]);
  }

  lemma JoinPair(ps: seq<Paragraph>, j: nat)
    requires j + 1 < |ps|
    ensures JoinWith(Texts(ps)[j..j + 2], " ") == ps[j].text + " " + ps[j + 1].text
  {
    var pair := Texts(ps)[j..j + 2];
    assert pair == [ps[j].text, ps[j + 1].text];
    assert pair[1..] == [ps[j + 1].text];
  }

  /** Any other run `r` absorbs each following paragraph whose similarity to the
      running buffer reaches the threshold, and the paragraph that ends it, if there
      is one, falls below the threshold. */
  lemma MergeGreedyRule(ps: seq<Paragraph>, qs: seq<bool>, embs: seq<Embedding>, m: EmbeddingModel, threshold: real, r: nat)
    requires |qs| == |embs| == |ps|
    requires var b := RunBounds(qs, embs, m, threshold, 0);
      r + 1 < |b| && !(qs[b[r]] && b[r] + 1 < |ps|)
    ensures var b := RunBounds(qs, embs, m, threshold, 0);
      && (forall k | b[r] < k < b[r + 1] :: m.similarity(BufferEmbedding(embs, m, b[r], k), embs[k]) >= threshold)
      && (b[r + 1] < |ps| ==> m.similarity(BufferEmbedding(embs, m, b[r], b[r + 1]), embs[b[r + 1]]) < threshold)
  {
    var b := RunBounds(qs, embs, m, threshold, 0);
    var i := b[r];
    assert BufferEmbedding(embs, m, i, i + 1) == embs[i];
    ExtensionEndSpec(embs, m, threshold, i, i + 1);
  }

  /** Empty input gives empty output; otherwise there are between one and |ps| runs. */
  lemma {:induction false} MergeCount(ps: seq<Paragraph>, qs: seq<bool>, embs: seq<Embedding>, m: EmbeddingModel, threshold: real, i: nat)
    requires |qs| == |embs| == |ps| && i <= |ps|
    ensures |MergeFrom(ps, qs, embs, m, threshold, i)| <= |ps| - i
    ensures i < |ps| ==> |MergeFrom(ps, qs, embs, m, threshold, i)| >= 1
    ensures i == |ps| ==> MergeFrom(ps, qs, embs, m, threshold, i) == []
    decreases |ps| - i
  {
    if i < |ps| {
      MergeCount(ps, qs, embs, m, threshold, RunEnd(qs, embs, m, threshold, i));
    }
  }

  /** Merging neither loses nor adds text: the " "-join of the output is that of the input. */
  lemma {:induction false} MergeKeepsText(ps: seq<Paragraph>, qs: seq<bool>, embs: seq<Embedding>, m: EmbeddingModel, threshold: real, i: nat)
    requires |qs| == |embs| == |ps| && i <= |ps|
    ensures JoinWith(Texts(MergeFrom(ps, qs, embs, m, threshold, i)), " ") == JoinWith(Texts(ps)[i..], " ")
    decreases |ps| - i
  {
    if i < |ps| {
      var ts := Texts(ps);
      var e := RunEnd(qs, embs, m, threshold, i);
      var rest := MergeFrom(ps, qs, embs, m, threshold, e);
      var out := MergeFrom(ps, qs, embs, m, threshold, i);
      MergeKeepsText(ps, qs, embs, m, threshold, e);
      assert Texts(out) == [JoinWith(ts[i..e], " ")] + Texts(rest);
      if e == |ps| {
        assert rest == [];
        assert ts[i..] == ts[i..e];
      } else {
        MergeCount(ps, qs, embs, m, threshold, e);
        assert Texts(out)[1..] == Texts(rest);
        assert ts[i..] == ts[i..e] + ts[e..];
        JoinConcat(ts[i..e], ts[e..], " ");
      }
    }
  }

  /** When no similarity reaches the threshold and no paragraph is a question, every
      paragraph stays on its own. */
  lemma {:induction false} MergeBelowThreshold(ps: seq<Paragraph>, qs: seq<bool>, embs: seq<Embedding>, m: EmbeddingModel, threshold: real, i: nat)
    requires |qs| == |embs| == |ps| && i <= |ps|
    requires forall a, b :: m.similarity(a, b) < threshold
    requires forall k | 0 <= k < |ps| :: !qs[k]
    ensures MergeFrom(ps, qs, embs, m, threshold, i) == ps[i..]
    decreases |ps| - i
  {
    if i < |ps| {
      assert RunEnd(qs, embs, m, threshold, i) == i + 1;
      assert Texts(ps)[i..i + 1] == [ps[i].text];
      MergeBelowThreshold(ps, qs, embs, m, threshold, i + 1);
      assert ps[i..] == [ps[i]] + ps[i + 1..];
    }
  }

  lemma {:induction false} ExtendsToEnd(embs: seq<Embedding>, m: EmbeddingModel, threshold: real, j: nat, buffer: Embedding)
    requires j <= |embs|
    requires forall a, b :: m.similarity(a, b) >= threshold
    ensures ExtensionEnd(embs, m, threshold, j, buffer) == |embs|
    decreases |embs| - j
  {
    if j < |embs| {
      ExtendsToEnd(embs, m, threshold, j + 1, m.average(buffer, embs[j]));
    }
  }

  /** When every similarity reaches the threshold and the first paragraph is not a
      question, the whole document becomes one paragraph. */
  lemma MergeAboveThreshold(ps: seq<Paragraph>, qs: seq<bool>, embs: seq<Embedding>, m: EmbeddingModel, threshold: real)
    requires |qs| == |embs| == |ps| && |ps| > 0
    requires forall a, b :: m.similarity(a, b) >= threshold
    requires !qs[0]
    ensures MergeFrom(ps, qs, embs, m, threshold, 0) == [Paragraph(ps[0].source, JoinWith(Texts(ps), " "))]
  {
    ExtendsToEnd(embs, m, threshold, 1, embs[0]);
    assert Texts(ps)[0..|ps|] == Texts(ps);
  }

  // ---------------------------------------------------------------- threshold selection

  /** `np.diff(merged_counts)[idx]` */
  function Drop(counts: seq<int>, idx: nat): int
    requires idx + 1 < |counts|
  {
    counts[idx + 1] - counts[idx]
  }

  /** `merged_counts[idx+1] > 3` */
  predicate Qualifies(counts: seq<int>, idx: nat)
    requires idx + 1 < |counts|
  {
    counts[idx + 1] > 3
  }

  /** `idx` is `candidates[np.argmin(diffs[candidates])]`: a qualifying transition with
      the smallest difference, and the first such. */
  predicate IsSteepestDrop(counts: seq<int>, idx: nat) {
    && idx + 1 < |counts| && Qualifies(counts, idx)
    && (forall j | 0 <= j < |counts| - 1 && Qualifies(counts, j) :: Drop(counts, idx) <= Drop(counts, j))
    && (forall j | 0 <= j < idx && Qualifies(counts, j) :: Drop(counts, idx) < Drop(counts, j))
  }

  /** The steepest qualifying drop among the transitions before `k`. */
  function SteepestDropBefore(counts: seq<int>, k: nat): (r: Option<nat>)
    requires k < |counts|
    ensures r.None? <==> forall j | 0 <= j < k :: !Qualifies(counts, j)
    ensures r.Some? ==> && r.value < k && Qualifies(counts, r.value)
                        && (forall j | 0 <= j < k && Qualifies(counts, j) :: Drop(counts, r.value) <= Drop(counts, j))
                        && (forall j | 0 <= j < r.value && Qualifies(counts, j) :: Drop(counts, r.value) < Drop(counts, j))
  {
    if k == 0 then None
    else
      var prev := SteepestDropBefore(counts, k - 1);
      if !Qualifies(counts, k - 1) then prev
      else if prev.None? || Drop(counts, k - 1) < Drop(counts, prev.value) then Some(k - 1)
      else prev
  }

  const DefaultThreshold: real := 0.8

  /** `calculate_optimal_threshold`: the threshold before the steepest drop whose
      resulting count is above 3, or 0.8 when there are fewer than two counts or no
      transition qualifies. */
  function OptimalThreshold(counts: seq<int>, thresholds: seq<real>): (r: real)
    requires |counts| <= |thresholds| + 1
    ensures || (exists idx | 0 <= idx < |counts| - 1 :: IsSteepestDrop(counts, idx) && r == thresholds[idx])
            || ((forall idx | 0 <= idx < |counts| - 1 :: !Qualifies(counts, idx)) && r == DefaultThreshold)
  {
    if |counts| < 2 then DefaultThreshold
    else match SteepestDropBefore(counts, |counts| - 1)
      case None => DefaultThreshold
      case Some(idx) => thresholds[idx]
  }

  /** The sweep `[10,10,9,9,7,3,3]`: the drop 7 -> 3 ends at 3 and does not qualify,
      and the steepest qualifying drop is 9 -> 7, so the threshold is the fourth one. */
  lemma OptimalThresholdExample()
    ensures OptimalThreshold([10, 10, 9, 9, 7, 3, 3], [0.50, 0.55, 0.60, 0.65, 0.70, 0.75, 0.80]) == 0.65
  {
    var counts := [10, 10, 9, 9, 7, 3, 3];
    var ts := [0.50, 0.55, 0.60, 0.65, 0.70, 0.75, 0.80];
    var r := OptimalThreshold(counts, ts);
    assert IsSteepestDrop(counts, 3) by {
      assert Drop(counts, 3) == -2;
      assert forall j | 0 <= j < 6 && Qualifies(counts, j) :: j <= 3;
    }
    var idx :| 0 <= idx < 6 && IsSteepestDrop(counts, idx) && r == ts[idx];
    assert idx == 3;
  }

  /** `np.arange(0.5, 0.96, 0.05)` */
  const SweepThresholds: seq<real> := [0.50, 0.55, 0.60, 0.65, 0.70, 0.75, 0.80, 0.85, 0.90, 0.95]

  function Tagged(filename: string, texts: seq<string>): (ps: seq<Paragraph>)
    ensures |ps| == |texts| && forall i | 0 <= i < |ps| :: ps[i] == Paragraph(filename, texts[i])
  {
    seq(|texts|, i requires 0 <= i < |texts| => Paragraph(filename, texts[i]))
  }

  /** The merged counts of the sweep. */
  function SweepCounts(ps: seq<Paragraph>, m: EmbeddingModel, thresholds: seq<real>): (counts: seq<int>)
    ensures |counts| == |thresholds|
    ensures forall k | 0 <= k < |thresholds| :: counts[k] == |Merge(ps, m, thresholds[k])|
  {
    seq(|thresholds|, k requires 0 <= k < |thresholds| => |Merge(ps, m, thresholds[k])|)
  }

  /** The sweep of the preprocessing script: merge at each threshold and count. */
  method SweepMergedCounts(ps: seq<Paragraph>, m: EmbeddingModel, thresholds: seq<real>) returns (counts: seq<int>)
    ensures counts == SweepCounts(ps, m, thresholds)
  {
    counts := [];
    for k := 0 to |thresholds|
      invariant |counts| == k
      invariant forall n | 0 <= n < k :: counts[n] == |Merge(ps, m, thresholds[n])|
    {
      var merged := MergeSimilarParagraphs(ps, m, thresholds[k]);
      counts := counts + [|merged|];
    }
  }

  /** One document of the preprocessing script: clean its paragraphs, skip it when
      nothing is left, sweep the thresholds, pick the best and merge at it. */
  method ProcessDocument(filename: string, raws: seq<string>, m: EmbeddingModel) returns (result: Option<seq<Paragraph>>)
    ensures var ps := Tagged(filename, CleanParagraphs(raws));
      && (ps == [] <==> result.None?)
      && (result.Some? ==> result.value == Merge(ps, m, OptimalThreshold(SweepCounts(ps, m, SweepThresholds), SweepThresholds)))
  {
    var cleaned := LoadParagraphs(raws);
    var ps := Tagged(filename, cleaned);
    if ps == [] {
      return None;
    }
    var counts := SweepMergedCounts(ps, m, SweepThresholds);
    var best := OptimalThreshold(counts, SweepThresholds);
    var final := MergeSimilarParagraphs(ps, m, best);
    return Some(final);
  }
}
