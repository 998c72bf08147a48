/** services/gpt_service.py: the language check around the translation call, and the
    splice of a medicine name into a translated sentence at its first marker word.
    The session store is a map read here; the chat completion is an oracle. */
module GptService {
  import opened Wrappers
  import opened Strings

  /** `session_lang`: the language recorded for each session id. */
  type SessionLang = map<string, string>

  /** The chat completion asked to translate `textKo` into `lang`: the reply text, or
      `Failure` when the call raises. */
  type Translator = (string, string) -> Result<string, string>

  /** `session_lang.get(session_id)` */
  function TargetLang(sessions: SessionLang, sessionId: string): Option<string> {
    if sessionId in sessions then Some(sessions[sessionId]) else None
  }

  /** `not target_lang or target_lang.lower() == "한국어"` */
  predicate StaysKorean(lang: Option<string>) {
    lang.None? || lang.value == "" || Lower(lang.value) == "한국어"
  }

  // ---------------------------------------------------------------- translate_to_user_lang

  /** `translate_to_user_lang`: a session with no language, an empty one or "한국어"
      (in any ASCII case) gets its text back; any other result is the stripped reply
      of a call that succeeded, and a successful call's reply is always used. */
  function TranslateToUserLang(sessions: SessionLang, sessionId: string, textKo: string, translate: Translator)
    : (r: string)
    ensures sessionId !in sessions || sessions[sessionId] == "" || Lower(sessions[sessionId]) == "한국어" ==>
      r == textKo
    ensures r != textKo ==>
      && sessionId in sessions
      && translate(sessions[sessionId], textKo).Success?
      && r == Strip(translate(sessions[sessionId], textKo).value)
    ensures sessionId in sessions && sessions[sessionId] != "" && Lower(sessions[sessionId]) != "한국어"
            && translate(sessions[sessionId], textKo).Success? ==>
      r == Strip(translate(sessions[sessionId], textKo).value)
    ensures r == textKo || r == [] || (!IsSpace(r[0]) && !IsSpace(r[|r| - 1]))
  {
    var lang := TargetLang(sessions, sessionId);
    if StaysKorean(lang) then textKo
    else
      match translate(lang.value, textKo)
      case Success(reply) =>
        StripSpec(reply);
        Strip(reply)
      case Failure(_) => textKo
  }

  /** The translator is consulted only for a recorded language other than Korean:
      any two translators give the same result for a session without one. */
  lemma TranslatorUnusedForKorean(sessions: SessionLang, sessionId: string, textKo: string, t1: Translator, t2: Translator)
    requires StaysKorean(TargetLang(sessions, sessionId))
    ensures TranslateToUserLang(sessions, sessionId, textKo, t1) == TranslateToUserLang(sessions, sessionId, textKo, t2)
  {
  }

  /** A translated result never starts or ends with whitespace; the only other result
      is the Korean text itself. */
  lemma TranslationIsTrimmed(sessions: SessionLang, sessionId: string, textKo: string, translate: Translator)
    ensures var r := TranslateToUserLang(sessions, sessionId, textKo, translate);
      r == textKo || r == [] || (!IsSpace(r[0]) && !IsSpace(r[|r| - 1]))
  {
    var lang := TargetLang(sessions, sessionId);
    if !StaysKorean(lang) && translate(lang.value, textKo).Success? {
      StripSpec(translate(lang.value, textKo).value);
    }
  }

  /** Lower-casing leaves "한국어" alone, so a session recorded as "한국어" gets no
      translation at all. */
  lemma KoreanSessionNotTranslated(sessions: SessionLang, sessionId: string, textKo: string, translate: Translator)
    requires sessionId in sessions && sessions[sessionId] == "한국어"
    ensures TranslateToUserLang(sessions, sessionId, textKo, translate) == textKo
  {
    LowerOfLowercase("한국어");
  }

  // ---------------------------------------------------------------- replace_translated_name

  /** The word the name is spliced in front of: "is" for 영어, "は" for 일본어, "是" for
      중국어; no marker for any other language or none. */
  function Marker(lang: Option<string>): (m: Option<string>)
    ensures m.Some? <==> lang == Some("영어") || lang == Some("일본어") || lang == Some("중국어")
    ensures m.Some? ==> |m.value| > 0
  {
    if lang == Some("영어") then Some("is")
    else if lang == Some("일본어") then Some("は")
    else if lang == Some("중국어") then Some("是")
    else None
  }

  /** `replace_translated_name`: the insert followed by the translated sentence from
      the first occurrence of the marker on; the sentence unchanged when the language
      has no marker or the sentence does not contain it. */
  function ReplaceTranslatedName(translated: string, insert: string, sessions: SessionLang, sessionId: string)
    : (r: string)
    ensures Marker(TargetLang(sessions, sessionId)).None? ==> r == translated
    ensures var m := Marker(TargetLang(sessions, sessionId));
      m.Some? && !Contains(translated, m.value) ==> r == translated
    ensures var m := Marker(TargetLang(sessions, sessionId));
      m.Some? && Contains(translated, m.value) ==>
        exists p: nat | OccursAt(translated, m.value, p) ::
          && (forall i | 0 <= i < p :: !OccursAt(translated, m.value, i))
          && r == insert + translated[p..]
  {
    match Marker(TargetLang(sessions, sessionId))
    case None => translated
    case Some(m) =>
      match IndexOf(translated, m)
      case None => translated
      case Some(p) => insert + translated[p..]
  }

  /** When a splice happens, the marker itself follows the insert and the rest of the
      sentence is a suffix of the translation. */
  lemma SpliceKeepsMarker(translated: string, insert: string, sessions: SessionLang, sessionId: string)
    requires Marker(TargetLang(sessions, sessionId)).Some?
    requires Contains(translated, Marker(TargetLang(sessions, sessionId)).value)
    ensures var m := Marker(TargetLang(sessions, sessionId)).value;
      var r := ReplaceTranslatedName(translated, insert, sessions, sessionId);
      && StartsWith(r, insert)
      && StartsWith(r[|insert|..], m)
      && EndsWith(translated, r[|insert|..])
  {
    var m := Marker(TargetLang(sessions, sessionId)).value;
    var p := IndexOf(translated, m).value;
    var r := ReplaceTranslatedName(translated, insert, sessions, sessionId);
    assert r == insert + translated[p..];
    assert r[|insert|..] == translated[p..];
    assert translated[p..][..|m|] == translated[p..p + |m|];
  }

  /** `re.search(r"is", "This is")` starts inside "This". */
  lemma FirstIsInsideThis()
    ensures IndexOf("This is", "is") == Some(2)
  {
    var t := "This is";
    assert !OccursAt(t, "is", 0) by { assert t[0..2][0] == 'T'; }
    assert !OccursAt(t, "is", 1) by { assert t[1..3][0] == 'h'; }
    assert OccursAt(t, "is", 2) by { assert t[2..4] == "is"; }
  }

  /** The English marker is a raw substring match: in "This is" it is found inside
      "This", so the insert lands before "is is". */
  lemma EnglishMarkerInsideWord()
    ensures ReplaceTranslatedName("This is", "Tylenol ", map["s" := "영어"], "s") == "Tylenol is is"
  {
    assert TargetLang(map["s" := "영어"], "s") == Some("영어");
    FirstIsInsideThis();
    assert "This is"[2..] == "is is";
  }
}
