/** rag/keyword_summary.py: cleaning of keyphrase candidates, the stopword filter,
    keyword extraction around a KeyBERT oracle that may fail, the split of a paragraph
    into question and answer, and the per-file summary loop. */
module KeywordSummary {
  import opened Wrappers
  import opened Strings
  import opened Seqs

  const KoreanStopwords: set<string> := {
    "이", "그", "저", "것", "수", "등", "들", "및", "의", "은", "는", "을", "를",
    "에", "에서", "과", "와", "하다", "되다", "되며", "했다", "합니다", "있습니다",
    "같습니다", "됩니다", "되므로", "하면", "있고", "있다", "라고", "하고",
    "대해", "대한", "하지만", "그러나", "즉", "또는", "때문에", "더", "좀", "더욱", "또한"}

  // ---------------------------------------------------------------- clean_text

  /** The characters `[가-힣a-zA-Z0-9\s]` lets through. */
  predicate IsKeptChar(c: char) {
    IsHangulSyllable(c) || IsAsciiLetter(c) || IsAsciiDigit(c) || IsSpace(c)
  }

  /** `re.sub(r"[^가-힣a-zA-Z0-9\s]", " ", text)`: only characters the class lets through
      are left, each such character of `text` stays in place, each other one becomes a
      space, and a text made only of such characters comes back unchanged. */
  function ReplaceDisallowed(s: string): (r: string)
    ensures |r| == |s|
    ensures AllKept(r)
    ensures forall i | 0 <= i < |s| && IsKeptChar(s[i]) :: r[i] == s[i]
    ensures forall i | 0 <= i < |s| && !IsKeptChar(s[i]) :: r[i] == ' '
    ensures AllKept(s) ==> r == s
  {
    seq(|s|, i requires 0 <= i < |s| => if IsKeptChar(s[i]) then s[i] else ' ')
  }

  /** What `clean_text` can produce: Hangul, lowercase ASCII letters, digits and single
      spaces, with no space at either end. */
  predicate IsCleanChar(c: char) {
    IsHangulSyllable(c) || IsAsciiLower(c) || IsAsciiDigit(c) || c == ' '
  }

  predicate IsCleanedText(t: string) {
    && (forall i | 0 <= i < |t| :: IsCleanChar(t[i]))
    && SingleSpaced(t)
    && (t == [] || (t[0] != ' ' && t[|t| - 1] != ' '))
  }

  /** `clean_text` (CleanTextIsClean: what it produces). */
  function CleanText(s: string): string {
    Lower(Strip(CollapseWhitespace(ReplaceDisallowed(s))))
  }

  predicate AllKept(s: string) {
    forall i | 0 <= i < |s| :: IsKeptChar(s[i])
  }

  lemma CollapseOfKept(a: string)
    requires AllKept(a)
    ensures AllKept(CollapseWhitespace(a)) && SingleSpaced(CollapseWhitespace(a))
  {
    CollapseKeepsNonSpace(a);
  }

  lemma StripOfKept(b: string)
    requires AllKept(b) && SingleSpaced(b)
    ensures var c := Strip(b);
      AllKept(c) && SingleSpaced(c) && (c == [] || (c[0] != ' ' && c[|c| - 1] != ' '))
  {
    StripSpec(b);
    var c := Strip(b);
    var k := |TrimEnd(b)| - |c|;
    assert forall i | 0 <= i < |c| :: c[i] == b[k + i];
  }

  lemma LowerOfKept(c: string)
    requires AllKept(c) && SingleSpaced(c) && (c == [] || (c[0] != ' ' && c[|c| - 1] != ' '))
    ensures IsCleanedText(Lower(c))
  {
    var r := Lower(c);
    assert forall i | 0 <= i < |r| :: r[i] == LowerChar(c[i]);
  }

  /** `clean_text` leaves only Hangul, lowercase ASCII letters, digits and single
      spaces, with no space at either end. */
  lemma CleanTextIsClean(s: string)
    ensures IsCleanedText(CleanText(s))
  {
    var a := ReplaceDisallowed(s);
    CollapseOfKept(a);
    var b := CollapseWhitespace(a);
    StripOfKept(b);
    LowerOfKept(Strip(b));
  }

  /** Replacing twice is replacing once. */
  lemma ReplaceDisallowedIdempotent(s: string)
    ensures ReplaceDisallowed(ReplaceDisallowed(s)) == ReplaceDisallowed(s)
  {
  }

  // Each step of `clean_text` leaves a cleaned text as it is.

  lemma ReplaceOfCleaned(t: string)
    requires IsCleanedText(t)
    ensures ReplaceDisallowed(t) == t
  {
    assert forall i | 0 <= i < |t| :: IsKeptChar(t[i]);
  }

  lemma CollapseOfCleaned(t: string)
    requires IsCleanedText(t)
    ensures CollapseWhitespace(t) == t
  {
    CollapseOfSingleSpaced(t);
  }

  lemma StripOfCleaned(t: string)
    requires IsCleanedText(t)
    ensures Strip(t) == t
  {
    StripOfTrimmed(t);
  }

  lemma LowerOfCleaned(t: string)
    requires IsCleanedText(t)
    ensures Lower(t) == t
  {
    assert forall i | 0 <= i < |t| :: !IsAsciiUpper(t[i]);
    LowerOfLowercase(t);
  }

  /** A cleaned text is its own cleaning. */
  lemma CleanTextOfCleaned(t: string)
    requires IsCleanedText(t)
    ensures CleanText(t) == t
  {
    ReplaceOfCleaned(t);
    CollapseOfCleaned(t);
    StripOfCleaned(t);
    LowerOfCleaned(t);
  }

  /** `clean_text` is idempotent. */
  lemma CleanTextIdempotent(s: string)
    ensures CleanText(CleanText(s)) == CleanText(s)
  {
    CleanTextIsClean(s);
    CleanTextOfCleaned(CleanText(s));
  }

  // ---------------------------------------------------------------- stopwords

  /** `is_stopword`, with scikit-learn's English stop words passed in. */
  predicate IsStopword(w: string, english: set<string>) {
    w in english || w in KoreanStopwords || |w| <= 2
  }

  /** The test `clean_keywords` applies to a cleaned candidate: some word of it is not
      a stopword. */
  predicate HasContentWord(c: string, english: set<string>) {
    exists w | w in Words(c) :: !IsStopword(w, english)
  }

  /** The set `clean_keywords` builds. */
  function KeptKeywords(candidates: seq<string>, english: set<string>): set<string> {
    set k | k in candidates && HasContentWord(CleanText(k), english) :: CleanText(k)
  }

  lemma KeptKeywordsStep(candidates: seq<string>, n: nat, english: set<string>)
    requires n < |candidates|
    ensures var c := CleanText(candidates[n]);
      KeptKeywords(candidates[..n + 1], english)
        == KeptKeywords(candidates[..n], english) + (if HasContentWord(c, english) then {c} else {})
  {
    assert candidates[..n + 1] == candidates[..n] + [candidates[n]];
  }

  /** `clean_keywords`: the cleaned candidates that hold a content word, each once, in
      the open order of `list(set)`. */
  method CleanKeywords(candidates: seq<string>, english: set<string>) returns (kws: seq<string>)
    ensures NoDuplicates(kws)
    ensures forall k | k in kws :: k in KeptKeywords(candidates, english)
    ensures forall k | k in KeptKeywords(candidates, english) :: k in kws
  {
    var cleaned: set<string> := {};
    for n := 0 to |candidates|
      invariant cleaned == KeptKeywords(candidates[..n], english)
    {
      KeptKeywordsStep(candidates, n, english);
      var kwClean := CleanText(candidates[n]);
      var words := Words(kwClean);
      if exists w | w in words :: !IsStopword(w, english) {
        cleaned := cleaned + {kwClean};
      }
    }
    assert candidates[..|candidates|] == candidates;
    kws := ListOfSet(cleaned);
  }

  /** A text with a content word has a word longer than two characters, so it has at
      least three characters. */
  lemma ContentWordIsLong(c: string, english: set<string>)
    requires HasContentWord(c, english)
    ensures |c| >= 3
  {
    var w :| w in Words(c) && !IsStopword(w, english);
    var i :| 0 <= i < |Words(c)| && Words(c)[i] == w;
  }

  /** Every kept keyword is a cleaned text of at least three characters; in particular
      an empty candidate never survives. */
  lemma KeptKeywordsAreLong(candidates: seq<string>, english: set<string>)
    ensures forall k | k in KeptKeywords(candidates, english) :: |k| >= 3 && IsCleanedText(k)
  {
    forall k | k in KeptKeywords(candidates, english)
      ensures |k| >= 3 && IsCleanedText(k)
    {
      var c :| c in candidates && HasContentWord(CleanText(c), english) && k == CleanText(c);
      CleanTextIsClean(c);
      ContentWordIsLong(k, english);
    }
  }

  // ---------------------------------------------------------------- extract_keywords

  datatype ExtractorError = ExtractorError(message: string)

  /** `kw_model.extract_keywords(text, top_n=...)`: (phrase, score) pairs, or an
      exception. */
  type Extractor = (string, int) -> Result<seq<(string, real)>, ExtractorError>

  function Phrases(scored: seq<(string, real)>): (ps: seq<string>)
    ensures |ps| == |scored| && forall i | 0 <= i < |ps| :: ps[i] == scored[i].0
  {
    seq(|scored|, i requires 0 <= i < |scored| => scored[i].0)
  }

  /** What `extract_keywords(text, topN)` may return: nothing when the extractor raises,
      otherwise `topN` of the kept keywords (as a Python slice counts them), each once. */
  predicate ValidExtraction(ks: seq<string>, text: string, topN: int, extractor: Extractor, english: set<string>) {
    match extractor(text, topN * 3)
    case Failure(_) => ks == []
    case Success(scored) =>
      var kept := KeptKeywords(Phrases(scored), english);
      && NoDuplicates(ks)
      && |ks| == SliceLength(|kept|, topN)
      && (forall k | k in ks :: k in kept)
  }

  /** `extract_keywords` */
  method ExtractKeywords(text: string, topN: int, extractor: Extractor, english: set<string>) returns (ks: seq<string>)
    ensures ValidExtraction(ks, text, topN, extractor, english)
    ensures topN >= 0 ==> |ks| <= topN
  {
    var response := extractor(text, topN * 3);
    if response.Failure? {
      return [];
    }
    var cleaned := CleanKeywords(Phrases(response.value), english);
    TakeOfListing(cleaned, KeptKeywords(Phrases(response.value), english), topN);
    ks := Take(cleaned, topN);
  }

  // ---------------------------------------------------------------- question / answer

  /** The first part of a split is what precedes the first separator. */
  lemma {:induction false} SplitOnHead(s: string, sep: char)
    requires sep in s
    ensures SplitOn(s, sep)[0] == s[..FirstIndex(s, sep)]
  {
    if s[0] != sep {
      assert sep in s[1..] by {
        var k :| 0 <= k < |s| && s[k] == sep;
        assert s[1..][k - 1] == sep;
      }
      SplitOnHead(s[1..], sep);
      var i := FirstIndex(s[1..], sep);
      assert FirstIndex(s, sep) == i + 1;
      assert s[..i + 1] == [s[0]] + s[1..][..i];
    }
  }

  /** Before the first separator, and everything after it. */
  lemma SplitOnFirst(s: string, sep: char)
    requires sep in s
    ensures var parts := SplitOn(s, sep);
            var i := FirstIndex(s, sep);
      |parts| >= 2 && parts[0] == s[..i] && JoinWith(parts[1..], [sep]) == s[i + 1..]
  {
    var parts := SplitOn(s, sep);
    SplitOnJoin(s, sep);
    assert |parts| >= 2;
    var rest := JoinWith(parts[1..], [sep]);
    assert s == parts[0] + [sep] + rest;
    var i := |parts[0]|;
    assert s[..i] == parts[0];
    FirstIndexUnique(s, sep, i);
    assert s[i + 1..] == rest;
  }

  /** `split_question_answer` (SplitQuestionSpec, SplitAnswerSpec, SplitWithoutMark:
      the question runs through the first `?`, the answer is the rest, stripped;
      without a `?` the whole text is the question). */
  function SplitQuestionAnswer(text: string): (r: (string, string))
    ensures '?' !in text ==> r == (text, "")
    ensures '?' in text ==>
      var (q, a) := r;
      && 0 < |q| <= |text| && text[..|q|] == q
      && q[|q| - 1] == '?' && '?' !in q[..|q| - 1]
      && a == Strip(text[|q|..])
  {
    if '?' in text then
      var i := FirstIndex(text, '?');
      assert text[..i + 1][..i] == text[..i];
      (text[..i + 1], Strip(text[i + 1..]))
    else (text, "")
  }

  /** The question is the prefix of the text through its first `?`. */
  lemma SplitQuestionSpec(text: string)
    requires '?' in text
    ensures var q := SplitQuestionAnswer(text).0;
      && 0 < |q| <= |text| && text[..|q|] == q
      && q[|q| - 1] == '?' && '?' !in q[..|q| - 1]
  {
    var i := FirstIndex(text, '?');
    assert text[..i + 1][..i] == text[..i];
  }

  /** Without a `?` the whole text is the question and the answer is empty. */
  lemma SplitWithoutMark(text: string)
    requires '?' !in text
    ensures SplitQuestionAnswer(text) == (text, "")
  {
  }

  /** The answer is what follows the question, stripped. */
  lemma SplitAnswerSpec(text: string)
    requires '?' in text
    ensures var (q, a) := SplitQuestionAnswer(text);
      |q| <= |text| && a == Strip(text[|q|..])
  {
  }

  lemma QuestionThroughFirstMark(text: string)
    requires '?' in text
    ensures SplitQuestionAnswer(text).0 == text[..FirstIndex(text, '?') + 1]
  {
  }

  lemma PrefixThroughFirstMark(text: string)
    requires '?' in text
    ensures text[..FirstIndex(text, '?') + 1] == SplitOn(text, '?')[0] + "?"
  {
    var i := FirstIndex(text, '?');
    SplitOnHead(text, '?');
    assert text[..i + 1] == text[..i] + [text[i]];
  }

  /** The question is what the source builds as `text.split("?")[0] + "?"`. */
  lemma SplitQuestionIsSplit(text: string)
    requires '?' in text
    ensures SplitQuestionAnswer(text).0 == SplitOn(text, '?')[0] + "?"
  {
    QuestionThroughFirstMark(text);
    PrefixThroughFirstMark(text);
  }

  /** The answer is what the source builds as `"?".join(text.split("?")[1:]).strip()`. */
  lemma SplitAnswerIsSplit(text: string)
    requires '?' in text
    ensures var parts := SplitOn(text, '?');
      |parts| >= 2 && SplitQuestionAnswer(text).1 == Strip(JoinWith(parts[1..], "?"))
  {
    SplitOnFirst(text, '?');
  }

  /** What `extract_keywords_from_qa` may return, given what the two extractions
      returned. */
  predicate ValidQaKeywords(ks: seq<string>, qk: seq<string>, ak: seq<string>, text: string, topN: int,
                            extractor: Extractor, english: set<string>)
  {
    var (q, a) := SplitQuestionAnswer(text);
    && ValidExtraction(qk, q, topN, extractor, english)
    && (a == "" ==> ak == [])
    && (a != "" ==> ValidExtraction(ak, a, topN, extractor, english))
    && ks == Take(Dedupe(qk + ak), topN)
  }

  /** `extract_keywords_from_qa`: the answer part is only sent to the extractor when it
      is not empty; the question's keywords come first, then the answer's, each once. */
  method ExtractKeywordsFromQa(text: string, topN: int, extractor: Extractor, english: set<string>)
    returns (ks: seq<string>, ghost questionKeywords: seq<string>, ghost answerKeywords: seq<string>)
    ensures ValidQaKeywords(ks, questionKeywords, answerKeywords, text, topN, extractor, english)
    ensures NoDuplicates(ks)
    ensures topN >= 0 ==> |ks| <= topN
    ensures forall k | k in ks :: k in questionKeywords || k in answerKeywords
  {
    var qa := SplitQuestionAnswer(text);
    var qk := ExtractKeywords(qa.0, topN, extractor, english);
    var ak: seq<string> := [];
    if qa.1 != "" {
      ak := ExtractKeywords(qa.1, topN, extractor, english);
    }
    TakeOfDedupe(qk + ak, topN);
    ks := Take(Dedupe(qk + ak), topN);
    questionKeywords, answerKeywords := qk, ak;
  }

  /** Every keyword a paragraph gets is a kept keyword of its question or of its answer,
      and so has at least three characters. */
  lemma QaKeywordsAreLong(ks: seq<string>, qk: seq<string>, ak: seq<string>, text: string, topN: int,
                          extractor: Extractor, english: set<string>)
    requires ValidQaKeywords(ks, qk, ak, text, topN, extractor, english)
    ensures forall k | k in ks :: |k| >= 3 && IsCleanedText(k)
  {
    var (q, a) := SplitQuestionAnswer(text);
    match extractor(q, topN * 3) {
      case Failure(_) =>
      case Success(scored) => KeptKeywordsAreLong(Phrases(scored), english);
    }
    if a != "" {
      match extractor(a, topN * 3) {
        case Failure(_) =>
        case Success(scored) => KeptKeywordsAreLong(Phrases(scored), english);
      }
    }
    forall k | k in ks ensures k in qk || k in ak {
      assert k in Dedupe(qk + ak);
    }
  }

  // ---------------------------------------------------------------- summary loop

  /** A paragraph record as read from JSON; `text` may be missing. */
  datatype ParagraphRecord = ParagraphRecord(text: Option<string>)

  datatype Summary = Summary(text: string, keywords: seq<string>)

  /** `p.get("text", "")` */
  function TextOf(p: ParagraphRecord): string {
    p.text.GetOr("")
  }

  /** The texts the loop keeps: those that are not blank, in order. */
  function NonBlankTexts(ps: seq<ParagraphRecord>): (ts: seq<string>)
    ensures forall i | 0 <= i < |ts| :: Strip(ts[i]) != ""
  {
    if ps == [] then []
    else
      var init := NonBlankTexts(ps[..|ps| - 1]);
      var t := TextOf(ps[|ps| - 1]);
      if Strip(t) == "" then init else init + [t]
  }

  function SummaryTexts(ss: seq<Summary>): (ts: seq<string>)
    ensures |ts| == |ss| && forall i | 0 <= i < |ss| :: ts[i] == ss[i].text
  {
    seq(|ss|, i requires 0 <= i < |ss| => ss[i].text)
  }

  lemma NonBlankTextsStep(ps: seq<ParagraphRecord>, n: nat)
    requires n < |ps|
    ensures var t := TextOf(ps[n]);
      NonBlankTexts(ps[..n + 1]) == if Strip(t) == "" then NonBlankTexts(ps[..n]) else NonBlankTexts(ps[..n]) + [t]
  {
    assert ps[..n + 1][..n] == ps[..n];
  }

  lemma SummaryTextsAppend(ss: seq<Summary>, s: Summary)
    ensures SummaryTexts(ss + [s]) == SummaryTexts(ss) + [s.text]
  {
  }

  /** A summary's keywords are what `extract_keywords_from_qa(text, top_n=5)` may
      return for its text. */
  ghost predicate ValidSummary(s: Summary, extractor: Extractor, english: set<string>) {
    && |s.keywords| <= 5 && NoDuplicates(s.keywords)
    && exists qk, ak :: ValidQaKeywords(s.keywords, qk, ak, s.text, 5, extractor, english)
  }

  ghost predicate AllValid(ss: seq<Summary>, extractor: Extractor, english: set<string>) {
    forall i | 0 <= i < |ss| :: ValidSummary(ss[i], extractor, english)
  }

  lemma AllValidAppend(ss: seq<Summary>, s: Summary, extractor: Extractor, english: set<string>)
    requires AllValid(ss, extractor, english) && ValidSummary(s, extractor, english)
    ensures AllValid(ss + [s], extractor, english)
  {
    var ss' := ss + [s];
    forall i | 0 <= i < |ss'| ensures ValidSummary(ss'[i], extractor, english) {
      if i < |ss| {
        assert ss'[i] == ss[i];
      }
    }
  }

  /** One record of the loop: the text with the keywords found for it. */
  method SummarizeText(text: string, extractor: Extractor, english: set<string>) returns (summary: Summary)
    ensures summary.text == text && ValidSummary(summary, extractor, english)
  {
    var keywords, qk, ak := ExtractKeywordsFromQa(text, 5, extractor, english);
    summary := Summary(text, keywords);
  }

  /** The per-file loop: blank texts are skipped, the others keep their text, in order,
      and get keywords from `extract_keywords_from_qa(text, top_n=5)`. */
  method SummarizeParagraphs(ps: seq<ParagraphRecord>, extractor: Extractor, english: set<string>)
    returns (summaries: seq<Summary>)
    ensures SummaryTexts(summaries) == NonBlankTexts(ps)
    ensures forall i | 0 <= i < |summaries| :: ValidSummary(summaries[i], extractor, english)
  {
    summaries := [];
    for n := 0 to |ps|
      invariant SummaryTexts(summaries) == NonBlankTexts(ps[..n])
      invariant AllValid(summaries, extractor, english)
    {
      NonBlankTextsStep(ps, n);
      var text := TextOf(ps[n]);
      if Strip(text) != "" {
        var summary := SummarizeText(text, extractor, english);
        AllValidAppend(summaries, summary, extractor, english);
        SummaryTextsAppend(summaries, summary);
        summaries := summaries + [summary];
      }
    }
    assert ps[..|ps|] == ps;
  }
}
