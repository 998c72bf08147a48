/** The parts of Python's `str` the pipeline uses: character classes of its regular
    expressions, `strip`, `lower`, `split`, `join`, `in` and `startswith`/`endswith`. */
module Strings {
  import opened Wrappers

  /** Python's whitespace, as `str.isspace()`, `strip()`, `split()` and the regex class
      `\s` all see it: U+0009 to U+000D, U+001C to U+0020, U+0085, U+00A0, U+1680,
      U+2000 to U+200A, U+2028, U+2029, U+202F, U+205F and U+3000. */
  predicate IsSpace(c: char) {
    || '\t' <= c <= '\r'
    || '\U{1C}' <= c <= ' '
    || c == '\U{85}' || c == '\U{A0}' || c == '\U{1680}'
    || '\U{2000}' <= c <= '\U{200A}'
    || c == '\U{2028}' || c == '\U{2029}' || c == '\U{202F}' || c == '\U{205F}' || c == '\U{3000}'
  }

  predicate IsAsciiDigit(c: char) { '0' <= c <= '9' }
  predicate IsAsciiUpper(c: char) { 'A' <= c <= 'Z' }
  predicate IsAsciiLower(c: char) { 'a' <= c <= 'z' }
  predicate IsAsciiLetter(c: char) { IsAsciiUpper(c) || IsAsciiLower(c) }

  /** The regex class `[가-힣]`: precomposed Hangul syllables U+AC00 to U+D7A3. */
  predicate IsHangulSyllable(c: char) { '가' <= c <= '힣' }

  /** The regex class `\w` on the characters this model covers. */
  predicate IsWordChar(c: char) {
    IsAsciiLetter(c) || IsAsciiDigit(c) || c == '_' || IsHangulSyllable(c)
  }

  predicate IsNotWordChar(c: char) { !IsWordChar(c) }

  function LowerChar(c: char): char {
    if IsAsciiUpper(c) then (c as int + 32) as char else c
  }

  /** `s.lower()` on ASCII letters: no upper-case letter is left, and every other
      character stays where it is. */
  function Lower(s: string): (r: string)
    ensures |r| == |s|
    ensures forall i | 0 <= i < |r| :: !IsAsciiUpper(r[i])
    ensures forall i | 0 <= i < |s| && !IsAsciiUpper(s[i]) :: r[i] == s[i]
    ensures forall i | 0 <= i < |s| && IsAsciiUpper(s[i]) :: IsAsciiLower(r[i]) && r[i] as int == s[i] as int + 32
  {
    seq(|s|, i requires 0 <= i < |s| => LowerChar(s[i]))
  }

  lemma LowerOfLowercase(s: string)
    requires forall i | 0 <= i < |s| :: !IsAsciiUpper(s[i])
    ensures Lower(s) == s
  {
  }

  /** Lower-casing twice is lower-casing once. */
  lemma LowerIdempotent(s: string)
    ensures Lower(Lower(s)) == Lower(s)
  {
    LowerOfLowercase(Lower(s));
  }

  /** `s.lstrip()` */
  function TrimStart(s: string): (r: string)
    ensures |r| <= |s| && r == s[|s| - |r|..]
    ensures r == [] || !IsSpace(r[0])
    ensures forall i | 0 <= i < |s| - |r| :: IsSpace(s[i])
  {
    if s != [] && IsSpace(s[0]) then TrimStart(s[1..]) else s
  }

  /** `s.rstrip()` */
  function TrimEnd(s: string): (r: string)
    ensures |r| <= |s| && r == s[..|r|]
    ensures r == [] || !IsSpace(r[|r| - 1])
    ensures forall i | |r| <= i < |s| :: IsSpace(s[i])
  {
    if s != [] && IsSpace(s[|s| - 1]) then TrimEnd(s[..|s| - 1]) else s
  }

  /** `s.strip()` (StripSpec: the slice of `s` left once leading and trailing
      whitespace is gone). */
  function Strip(s: string): string {
    TrimStart(TrimEnd(s))
  }

  lemma StripEnds(s: string)
    ensures var r := Strip(s);
      r == [] || (!IsSpace(r[0]) && !IsSpace(r[|r| - 1]))
  {
    var e := TrimEnd(s);
    var r := TrimStart(e);
    if r != [] {
      assert r[|r| - 1] == e[|e| - 1];
    }
  }

  lemma StripSlice(s: string)
    ensures var r := Strip(s);
      var a := |TrimEnd(s)| - |r|;
      0 <= a && a + |r| <= |s| && r == s[a..a + |r|]
  {
    var e := TrimEnd(s);
    var r := TrimStart(e);
    var a := |e| - |r|;
    assert e == s[..|e|];
    assert r == e[a..];
    assert s[..|e|][a..] == s[a..|e|];
  }

  lemma StripRemovesSpace(s: string)
    ensures var r := Strip(s);
      var a := |TrimEnd(s)| - |r|;
      && (forall i | 0 <= i < a :: IsSpace(s[i]))
      && (forall i | a + |r| <= i < |s| :: IsSpace(s[i]))
  {
    var e := TrimEnd(s);
    var r := TrimStart(e);
    assert forall i | 0 <= i < |e| :: e[i] == s[i];
  }

  lemma StripSpec(s: string)
    ensures var r := Strip(s);
      && (r == [] || (!IsSpace(r[0]) && !IsSpace(r[|r| - 1])))
      && var a := |TrimEnd(s)| - |r|;
      && 0 <= a && a + |r| <= |s| && r == s[a..a + |r|]
      && (forall i | 0 <= i < a :: IsSpace(s[i]))
      && (forall i | a + |r| <= i < |s| :: IsSpace(s[i]))
  {
    StripEnds(s);
    StripSlice(s);
    StripRemovesSpace(s);
  }

  lemma StripOfTrimmed(s: string)
    requires s == [] || (!IsSpace(s[0]) && !IsSpace(s[|s| - 1]))
    ensures Strip(s) == s
  {
  }

  /** No whitespace other than single spaces. */
  predicate SingleSpaced(s: string) {
    && (forall i | 0 <= i < |s| :: IsSpace(s[i]) ==> s[i] == ' ')
    && (forall i, j | 0 <= i < |s| && 0 <= j < |s| && j == i + 1 :: !(s[i] == ' ' && s[j] == ' '))
  }

  lemma SingleSpacedCons(c: char, s: string)
    requires SingleSpaced(s) && (!IsSpace(c) || c == ' ')
    requires c == ' ' ==> s == [] || s[0] != ' '
    ensures SingleSpaced([c] + s)
  {
    var r := [c] + s;
    assert forall i | 1 <= i < |r| :: r[i] == s[i - 1];
  }

  /** The characters of `s` that are not whitespace, in order. */
  function NonSpace(s: string): string {
    if s == [] then [] else (if IsSpace(s[0]) then [] else [s[0]]) + NonSpace(s[1..])
  }

  lemma {:induction false} NonSpaceOfTrimStart(s: string)
    ensures NonSpace(TrimStart(s)) == NonSpace(s)
  {
    if s != [] && IsSpace(s[0]) {
      NonSpaceOfTrimStart(s[1..]);
    }
  }

  /** `re.sub(r"\s+", " ", s)`: every maximal run of whitespace becomes one space
      (CollapseKeepsNonSpace: the other characters stay, in order). */
  function CollapseWhitespace(s: string): (r: string)
    ensures SingleSpaced(r)
    ensures |s| > 0 && !IsSpace(s[0]) ==> |r| > 0 && r[0] == s[0]
    ensures |s| > 0 ==> |r| > 0
    decreases |s|
  {
    if s == [] then []
    else if IsSpace(s[0]) then
      var rest := CollapseWhitespace(TrimStart(s[1..]));
      assert rest == [] || rest[0] != ' ';
      SingleSpacedCons(' ', rest);
      " " + rest
    else
      var rest := CollapseWhitespace(s[1..]);
      SingleSpacedCons(s[0], rest);
      [s[0]] + rest
  }

  lemma {:induction false} CollapseNonSpace(s: string)
    ensures NonSpace(CollapseWhitespace(s)) == NonSpace(s)
    decreases |s|
  {
    if s != [] {
      var r := CollapseWhitespace(s);
      if IsSpace(s[0]) {
        var t := TrimStart(s[1..]);
        CollapseNonSpace(t);
        NonSpaceOfTrimStart(s[1..]);
        assert r[1..] == CollapseWhitespace(t);
        assert NonSpace(s) == NonSpace(s[1..]);
      } else {
        CollapseNonSpace(s[1..]);
        assert r[1..] == CollapseWhitespace(s[1..]);
      }
    }
  }

  lemma InSuffix(s: string, t: string)
    requires |t| <= |s| && t == s[|s| - |t|..]
    ensures forall c | c in t :: c in s
  {
    forall c | c in t ensures c in s {
      var j :| 0 <= j < |t| && t[j] == c;
      assert s[|s| - |t| + j] == c;
    }
  }

  lemma {:induction false} CollapseChars(s: string)
    ensures forall i | 0 <= i < |CollapseWhitespace(s)| :: CollapseWhitespace(s)[i] == ' ' || CollapseWhitespace(s)[i] in s
    decreases |s|
  {
    if s != [] {
      var r := CollapseWhitespace(s);
      var t := if IsSpace(s[0]) then TrimStart(s[1..]) else s[1..];
      assert r == [if IsSpace(s[0]) then ' ' else s[0]] + CollapseWhitespace(t);
      CollapseChars(t);
      InSuffix(s, t);
      forall i | 0 <= i < |r| ensures r[i] == ' ' || r[i] in s {
        if i > 0 {
          assert r[i] == CollapseWhitespace(t)[i - 1];
        }
      }
    }
  }

  lemma {:induction false} CollapseShorter(s: string)
    ensures |CollapseWhitespace(s)| <= |s|
    decreases |s|
  {
    if s != [] {
      if IsSpace(s[0]) {
        CollapseShorter(TrimStart(s[1..]));
      } else {
        CollapseShorter(s[1..]);
      }
    }
  }

  lemma CollapseKeepsNonSpace(s: string)
    ensures NonSpace(CollapseWhitespace(s)) == NonSpace(s)
    ensures forall i | 0 <= i < |CollapseWhitespace(s)| :: CollapseWhitespace(s)[i] == ' ' || CollapseWhitespace(s)[i] in s
    ensures |CollapseWhitespace(s)| <= |s|
  {
    CollapseNonSpace(s);
    CollapseChars(s);
    CollapseShorter(s);
  }

  lemma {:induction false} CollapseOfSingleSpaced(s: string)
    requires SingleSpaced(s)
    ensures CollapseWhitespace(s) == s
  {
    if s != [] {
      assert SingleSpaced(s[1..]);
      if IsSpace(s[0]) {
        assert s[1..] == [] || !IsSpace(s[1]);
        assert TrimStart(s[1..]) == s[1..];
      }
      CollapseOfSingleSpaced(s[1..]);
    }
  }

  /** The maximal runs of characters for which `isSep` is false, left to right.
      `s.split()` is `Runs(s, IsSpace)`; `re.findall(r"\w+", s)` is `Runs(s, IsNotWordChar)`. */
  function Runs(s: string, isSep: char -> bool): (r: seq<string>)
    ensures forall i | 0 <= i < |r| :: 0 < |r[i]| <= |s|
    ensures forall i, k | 0 <= i < |r| && 0 <= k < |r[i]| :: !isSep(r[i][k])
    ensures |s| > 0 && !isSep(s[0]) ==> |r| > 0 && r[0][0] == s[0]
  {
    if s == [] then []
    else
      var rest := Runs(s[1..], isSep);
      if isSep(s[0]) then rest
      else if |s| > 1 && !isSep(s[1]) then [[s[0]] + rest[0]] + rest[1..]
      else [[s[0]]] + rest
  }

  /** Every character of a run is a character of the text, so a property of all the
      text's characters holds of all the runs' characters. */
  lemma {:induction false} RunsKeep(s: string, isSep: char -> bool, p: char -> bool)
    requires forall k | 0 <= k < |s| :: p(s[k])
    ensures forall i, k | 0 <= i < |Runs(s, isSep)| && 0 <= k < |Runs(s, isSep)[i]| :: p(Runs(s, isSep)[i][k])
    decreases |s|
  {
    if s != [] {
      RunsKeep(s[1..], isSep, p);
      var rest := Runs(s[1..], isSep);
      var r := Runs(s, isSep);
      forall i, k | 0 <= i < |r| && 0 <= k < |r[i]| ensures p(r[i][k]) {
        if isSep(s[0]) {
          assert r[i] == rest[i];
        } else if |s| > 1 && !isSep(s[1]) {
          if i == 0 {
            assert r[0] == [s[0]] + rest[0];
            if k > 0 { assert r[0][k] == rest[0][k - 1]; }
          } else {
            assert r[i] == rest[i];
          }
        } else if i > 0 {
          assert r[i] == rest[i - 1];
        }
      }
    }
  }

  /** `s.split()` */
  function Words(s: string): seq<string> {
    Runs(s, IsSpace)
  }

  /** A separator splits: the runs of `a + [c] + b` are those of `a`, then those of `b`. */
  lemma {:induction false} RunsAtSeparator(a: string, c: char, b: string, isSep: char -> bool)
    requires isSep(c)
    ensures Runs(a + [c] + b, isSep) == Runs(a, isSep) + Runs(b, isSep)
    decreases |a|
  {
    if a == [] {
      assert a + [c] + b == [c] + b && ([c] + b)[1..] == b;
    } else {
      assert (a + [c] + b)[1..] == a[1..] + [c] + b;
      RunsAtSeparator(a[1..], c, b, isSep);
      RunsSeparatorStep(a, c, b, isSep);
    }
  }

  lemma RunsSeparatorStep(a: string, c: char, b: string, isSep: char -> bool)
    requires a != [] && isSep(c)
    requires Runs(a[1..] + [c] + b, isSep) == Runs(a[1..], isSep) + Runs(b, isSep)
    ensures Runs(a + [c] + b, isSep) == Runs(a, isSep) + Runs(b, isSep)
  {
    var s := a + [c] + b;
    var a' := a[1..];
    assert s[1..] == a' + [c] + b;
    assert s[0] == a[0] && s[1] == (if a' == [] then c else a'[0]);
    if isSep(a[0]) {
      RunsSkipFirst(s, a, isSep);
    } else if a' != [] && !isSep(a'[0]) {
      RunsExtendFirst(s, a, isSep, Runs(b, isSep));
    } else {
      RunsSingleFirst(s, a, isSep, Runs(b, isSep));
    }
  }

  lemma RunsSkipFirst(s: string, a: string, isSep: char -> bool)
    requires s != [] && a != [] && s[0] == a[0] && isSep(a[0])
    ensures Runs(s, isSep) == Runs(s[1..], isSep) && Runs(a, isSep) == Runs(a[1..], isSep)
  {
  }

  lemma RunsExtendFirst(s: string, a: string, isSep: char -> bool, rb: seq<string>)
    requires |s| > 1 && |a| > 1 && s[0] == a[0] && s[1] == a[1] && !isSep(a[0]) && !isSep(a[1])
    requires Runs(s[1..], isSep) == Runs(a[1..], isSep) + rb
    ensures Runs(s, isSep) == Runs(a, isSep) + rb
  {
    var rs, ra := Runs(s[1..], isSep), Runs(a[1..], isSep);
    assert a[1..][0] == a[1];
    assert Runs(s, isSep) == [[a[0]] + rs[0]] + rs[1..];
    assert Runs(a, isSep) == [[a[0]] + ra[0]] + ra[1..];
    JoinRunsHead(rs, ra, rb, [a[0]]);
  }

  lemma RunsSingleFirst(s: string, a: string, isSep: char -> bool, rb: seq<string>)
    requires |s| > 1 && a != [] && s[0] == a[0] && !isSep(a[0]) && isSep(s[1])
    requires |a| > 1 ==> isSep(a[1])
    requires Runs(s[1..], isSep) == Runs(a[1..], isSep) + rb
    ensures Runs(s, isSep) == Runs(a, isSep) + rb
  {
    var rs, ra := Runs(s[1..], isSep), Runs(a[1..], isSep);
    assert Runs(s, isSep) == [[a[0]]] + rs;
    assert Runs(a, isSep) == [[a[0]]] + ra;
    ConsConcat([a[0]], rs, ra, rb);
  }

  lemma ConsConcat<T>(x: T, rs: seq<T>, ra: seq<T>, rb: seq<T>)
    requires rs == ra + rb
    ensures [x] + rs == ([x] + ra) + rb
  {
  }

  lemma JoinRunsHead(rs: seq<string>, ra: seq<string>, rb: seq<string>, x: string)
    requires ra != [] && rs == ra + rb
    ensures [x + rs[0]] + rs[1..] == ([x + ra[0]] + ra[1..]) + rb
  {
    assert rs[0] == ra[0];
    assert rs[1..] == ra[1..] + rb;
  }

  /** A non-empty string without separators is one run by itself. */
  lemma {:induction false} RunsOfWord(w: string, isSep: char -> bool)
    requires w != [] && forall k | 0 <= k < |w| :: !isSep(w[k])
    ensures Runs(w, isSep) == [w]
    decreases |w|
  {
    if |w| == 1 {
      assert w == [w[0]] && w[1..] == [];
    } else {
      assert forall k | 0 <= k < |w| - 1 :: w[1..][k] == w[k + 1];
      RunsOfWord(w[1..], isSep);
      assert [w[0]] + w[1..] == w;
    }
  }

  /** There are no runs exactly when every character is a separator. */
  lemma {:induction false} RunsEmpty(s: string, isSep: char -> bool)
    ensures Runs(s, isSep) == [] <==> forall k | 0 <= k < |s| :: isSep(s[k])
    decreases |s|
  {
    if s != [] {
      RunsEmpty(s[1..], isSep);
      assert forall k | 1 <= k < |s| :: s[k] == s[1..][k - 1];
    }
  }

  lemma {:induction false} WordsOfTrimStart(s: string)
    ensures Words(TrimStart(s)) == Words(s)
    decreases |s|
  {
    if s != [] && IsSpace(s[0]) {
      WordsOfTrimStart(s[1..]);
    }
  }

  /** `" "` when `b`, otherwise nothing. */
  function Pad(b: bool): string {
    if b then " " else ""
  }

  lemma JoinCons(x: char, p: string, rest: seq<string>, sep: string)
    ensures JoinWith([[x] + p] + rest, sep) == [x] + JoinWith([p] + rest, sep)
  {
    if rest != [] {
      assert ([[x] + p] + rest)[1..] == rest;
      assert ([p] + rest)[1..] == rest;
    }
  }

  /** A join of non-empty parts without whitespace, with single spaces, is empty only
      for no parts, and otherwise starts and ends with a non-space. */
  lemma {:induction false} JoinOfWords(parts: seq<string>)
    requires forall i | 0 <= i < |parts| :: parts[i] != []
    requires forall i, k | 0 <= i < |parts| && 0 <= k < |parts[i]| :: !IsSpace(parts[i][k])
    ensures var j := JoinWith(parts, " ");
      (j == [] <==> parts == []) && (j != [] ==> !IsSpace(j[0]) && !IsSpace(j[|j| - 1]))
  {
    if |parts| > 1 {
      var t := parts[1..];
      assert forall i | 0 <= i < |t| :: t[i] == parts[i + 1];
      JoinOfWords(t);
    }
  }

  /** `re.sub(r"\s+", " ", s)` is the words of `s` joined by single spaces, with one
      space in front when `s` starts with whitespace and one behind when it ends with
      whitespace after a word. */
  ghost predicate CollapseShaped(s: string) {
    CollapseWhitespace(s) ==
      Pad(s != [] && IsSpace(s[0])) + JoinWith(Words(s), " ")
        + Pad(s != [] && Words(s) != [] && IsSpace(s[|s| - 1]))
  }

  lemma {:induction false} CollapseShape(s: string)
    ensures CollapseShaped(s)
    decreases |s|
  {
    if s == [] {
    } else if IsSpace(s[0]) {
      CollapseShape(TrimStart(s[1..]));
      ShapeAfterSpace(s);
    } else if |s| == 1 {
      ShapeOfChar(s);
    } else if !IsSpace(s[1]) {
      CollapseShape(s[1..]);
      ShapeInsideWord(s);
    } else {
      CollapseShape(s[1..]);
      ShapeBeforeSpace(s);
    }
  }

  lemma ShapeOfChar(s: string)
    requires |s| == 1 && !IsSpace(s[0])
    ensures CollapseShaped(s)
  {
    assert s[1..] == [];
    RunsOfWord(s, IsSpace);
  }

  lemma TrimStartLast(x: string)
    ensures var t := TrimStart(x); t != [] ==> t[|t| - 1] == x[|x| - 1]
  {
    var t := TrimStart(x);
    if t != [] {
      assert t[|t| - 1] == x[|x| - |t|..][|t| - 1];
    }
  }

  // The concatenations behind each step of CollapseShape, over plain strings.

  lemma AssembleAfterSpace(cs: string, ct: string, j: string, p: string, p': string)
    requires cs == " " + ct && ct == Pad(false) + j + p' && p == p'
    ensures cs == Pad(true) + j + p
  {
  }

  lemma AssembleInsideWord(cs: string, ct: string, x: char, j: string, jj: string, p: string, p': string)
    requires cs == [x] + ct && ct == Pad(false) + j + p' && jj == [x] + j && p == p'
    ensures cs == Pad(false) + jj + p
  {
  }

  lemma AssembleLastWord(cs: string, ct: string, x: char, j: string, jj: string)
    requires cs == [x] + ct && ct == Pad(true) + j + Pad(false) && j == [] && jj == [x]
    ensures cs == Pad(false) + jj + Pad(true)
  {
  }

  lemma AssembleBeforeWords(cs: string, ct: string, x: char, j: string, jj: string, p: string, p': string)
    requires cs == [x] + ct && ct == Pad(true) + j + p' && jj == [x] + " " + j && p == p'
    ensures cs == Pad(false) + jj + p
  {
  }

  lemma ShapeAfterSpace(s: string)
    requires s != [] && IsSpace(s[0]) && CollapseShaped(TrimStart(s[1..]))
    ensures CollapseShaped(s)
  {
    AfterSpaceFacts(s);
    ShapeFromAfterSpace(s, TrimStart(s[1..]), Words(s));
  }

  lemma AfterSpaceFacts(s: string)
    requires s != [] && IsSpace(s[0])
    ensures var t := TrimStart(s[1..]);
      && CollapseWhitespace(s) == " " + CollapseWhitespace(t)
      && Words(s) == Words(t)
      && (t != [] ==> t[|t| - 1] == s[|s| - 1])
  {
    WordsOfTrimStart(s[1..]);
    TrimStartLast(s[1..]);
  }

  lemma ShapeFromAfterSpace(s: string, t: string, w: seq<string>)
    requires s != [] && IsSpace(s[0]) && t == TrimStart(s[1..]) && w == Words(s) && w == Words(t)
    requires t != [] ==> t[|t| - 1] == s[|s| - 1]
    requires CollapseWhitespace(s) == " " + CollapseWhitespace(t)
    requires CollapseShaped(t)
    ensures CollapseShaped(s)
  {
    var e := s != [] && w != [] && IsSpace(s[|s| - 1]);
    var e' := t != [] && w != [] && IsSpace(t[|t| - 1]);
    assert e == e';
    assert (t != [] && IsSpace(t[0])) == false;
    AssembleAfterSpace(CollapseWhitespace(s), CollapseWhitespace(t), JoinWith(w, " "), Pad(e), Pad(e'));
  }

  lemma ShapeInsideWord(s: string)
    requires |s| > 1 && !IsSpace(s[0]) && !IsSpace(s[1]) && CollapseShaped(s[1..])
    ensures CollapseShaped(s)
  {
    var s' := s[1..];
    var w := Words(s');
    assert CollapseWhitespace(s) == [s[0]] + CollapseWhitespace(s');
    assert Words(s) == [[s[0]] + w[0]] + w[1..];
    assert w == [w[0]] + w[1..];
    JoinCons(s[0], w[0], w[1..], " ");
    assert s'[|s'| - 1] == s[|s| - 1];
    var e := s != [] && Words(s) != [] && IsSpace(s[|s| - 1]);
    var e' := s' != [] && w != [] && IsSpace(s'[|s'| - 1]);
    assert e == e';
    assert (s' != [] && IsSpace(s'[0])) == false;
    AssembleInsideWord(CollapseWhitespace(s), CollapseWhitespace(s'), s[0], JoinWith(w, " "), JoinWith(Words(s), " "), Pad(e), Pad(e'));
  }

  lemma ShapeBeforeSpace(s: string)
    requires |s| > 1 && !IsSpace(s[0]) && IsSpace(s[1]) && CollapseShaped(s[1..])
    ensures CollapseShaped(s)
  {
    var s' := s[1..];
    var w := Words(s');
    assert CollapseWhitespace(s) == [s[0]] + CollapseWhitespace(s');
    assert Words(s) == [[s[0]]] + w;
    assert s'[|s'| - 1] == s[|s| - 1];
    assert (s' != [] && IsSpace(s'[0])) == true;
    if w == [] {
      RunsEmpty(s', IsSpace);
      assert IsSpace(s'[|s'| - 1]);
      assert Words(s) == [[s[0]]];
      assert (s != [] && Words(s) != [] && IsSpace(s[|s| - 1])) == true;
      AssembleLastWord(CollapseWhitespace(s), CollapseWhitespace(s'), s[0], JoinWith(w, " "), JoinWith(Words(s), " "));
    } else {
      assert ([[s[0]]] + w)[1..] == w;
      var e := s != [] && Words(s) != [] && IsSpace(s[|s| - 1]);
      var e' := s' != [] && w != [] && IsSpace(s'[|s'| - 1]);
      assert e == e';
      AssembleBeforeWords(CollapseWhitespace(s), CollapseWhitespace(s'), s[0], JoinWith(w, " "), JoinWith(Words(s), " "), Pad(e), Pad(e'));
    }
  }

  lemma StripPadded(a: bool, j: string, b: bool)
    requires j == [] || (!IsSpace(j[0]) && !IsSpace(j[|j| - 1]))
    requires j == [] ==> !b
    ensures Strip(Pad(a) + j + Pad(b)) == j
  {
    if j == [] {
      assert Pad(a) + j + Pad(b) == Pad(a);
    } else {
      var x := Pad(a) + j;
      assert x[|x| - 1] == j[|j| - 1];
      TrimEndPadded(x, b);
      TrimStartPadded(a, j);
    }
  }

  lemma TrimEndPadded(x: string, b: bool)
    requires x != [] && !IsSpace(x[|x| - 1])
    ensures TrimEnd(x + Pad(b)) == x
  {
    if b {
      assert (x + " ")[..|x|] == x;
    } else {
      assert x + Pad(b) == x;
    }
  }

  lemma TrimStartPadded(a: bool, j: string)
    requires j != [] && !IsSpace(j[0])
    ensures TrimStart(Pad(a) + j) == j
  {
    if a {
      assert (" " + j)[1..] == j;
    } else {
      assert Pad(a) + j == j;
    }
  }

  /** Collapsing whitespace and stripping gives the words of `s` joined by single
      spaces: `re.sub(r"\s+", " ", s).strip() == " ".join(s.split())`. */
  lemma CollapseIsJoinOfWords(s: string)
    ensures Strip(CollapseWhitespace(s)) == JoinWith(Words(s), " ")
  {
    CollapseShape(s);
    assert CollapseShaped(s);
    JoinOfWords(Words(s));
    StripPadded(s != [] && IsSpace(s[0]), JoinWith(Words(s), " "), s != [] && Words(s) != [] && IsSpace(s[|s| - 1]));
  }

  /** `sep.join(parts)` */
  function JoinWith(parts: seq<string>, sep: string): string {
    if |parts| == 0 then ""
    else if |parts| == 1 then parts[0]
    else parts[0] + sep + JoinWith(parts[1..], sep)
  }

  lemma {:induction false} JoinAppend(parts: seq<string>, x: string, sep: string)
    requires |parts| > 0
    ensures JoinWith(parts + [x], sep) == JoinWith(parts, sep) + sep + x
  {
    if |parts| > 1 {
      assert (parts + [x])[1..] == parts[1..] + [x];
      JoinAppend(parts[1..], x, sep);
    }
  }

  lemma {:induction false} JoinConcat(a: seq<string>, b: seq<string>, sep: string)
    requires |a| > 0 && |b| > 0
    ensures JoinWith(a + b, sep) == JoinWith(a, sep) + sep + JoinWith(b, sep)
  {
    if |a| == 1 {
      assert (a + b)[1..] == b;
    } else {
      assert (a + b)[1..] == a[1..] + b;
      JoinConcat(a[1..], b, sep);
    }
  }

  /** `s.split(sep)` for a one-character separator: never empty, and no part holds `sep`. */
  function SplitOn(s: string, sep: char): (parts: seq<string>)
    ensures |parts| >= 1
    ensures forall i | 0 <= i < |parts| :: sep !in parts[i]
  {
    if s == [] then [""]
    else
      var rest := SplitOn(s[1..], sep);
      if s[0] == sep then [""] + rest
      else [[s[0]] + rest[0]] + rest[1..]
  }

  /** Joining the parts of a split with the separator gives back the string. */
  lemma {:induction false} SplitOnJoin(s: string, sep: char)
    ensures JoinWith(SplitOn(s, sep), [sep]) == s
  {
    if s != [] {
      var rest := SplitOn(s[1..], sep);
      SplitOnJoin(s[1..], sep);
      if s[0] == sep {
        assert ([""] + rest)[1..] == rest;
      } else {
        var parts := [[s[0]] + rest[0]] + rest[1..];
        assert parts[1..] == rest[1..];
      }
    }
  }

  predicate StartsWith(s: string, prefix: string) {
    |prefix| <= |s| && s[..|prefix|] == prefix
  }

  predicate EndsWith(s: string, suffix: string) {
    |suffix| <= |s| && s[|s| - |suffix|..] == suffix
  }

  /** `filename.endswith(".json")`, the test both folder listings apply. */
  predicate IsJsonName(name: string) {
    EndsWith(name, ".json")
  }

  lemma EndsWithChar(s: string, c: char)
    ensures EndsWith(s, [c]) <==> |s| > 0 && s[|s| - 1] == c
  {
    if |s| > 0 {
      assert s[|s| - 1..] == [s[|s| - 1]];
    }
  }

  predicate OccursAt(s: string, sub: string, i: nat) {
    i + |sub| <= |s| && s[i..i + |sub|] == sub
  }

  /** `s.find(sub)`, or `re.search(sub, s).start()` for a literal pattern: the first
      position where `sub` occurs. */
  function IndexOf(s: string, sub: string): (r: Option<nat>)
    ensures r.Some? ==> OccursAt(s, sub, r.value) && forall i | 0 <= i < r.value :: !OccursAt(s, sub, i)
    ensures r.None? ==> forall i | 0 <= i <= |s| :: !OccursAt(s, sub, i)
  {
    IndexFrom(s, sub, 0)
  }

  function IndexFrom(s: string, sub: string, k: nat): (r: Option<nat>)
    requires k <= |s| + 1
    ensures r.Some? ==> k <= r.value && OccursAt(s, sub, r.value) && forall i | k <= i < r.value :: !OccursAt(s, sub, i)
    ensures r.None? ==> forall i | k <= i <= |s| :: !OccursAt(s, sub, i)
    decreases |s| + 1 - k
  {
    if k + |sub| > |s| then None
    else if s[k..k + |sub|] == sub then Some(k)
    else IndexFrom(s, sub, k + 1)
  }

  /** Python's `sub in s`. */
  predicate Contains(s: string, sub: string) {
    IndexOf(s, sub).Some?
  }
}
