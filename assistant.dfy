/** The decision rules of the voice assistant (app_og.py) that do not depend
    on speech, the network or the language model: how a classifier reply is
    cut down to its JSON object and normalised, when a reply is translated,
    which language a turn is answered in, which utterances end the
    conversation, what is said when the backend has nothing to say, and the
    name a new profile receives. The outputs of the foreign services (the
    model's reply text, the language detector, `json.loads`) are inputs here. */
module Assistant {
  import opened Wrappers
  import opened Text
  import Config
  import Store

  /** A value `json.loads` can produce. */
  datatype Json =
    | JNull
    | JBool(b: bool)
    | JNumber(n: real)
    | JString(s: string)
    | JArray(items: seq<Json>)
    | JObject(fields: map<string, Json>)

  /** Python truthiness of a decoded JSON value. */
  predicate IsTruthy(v: Json) {
    match v
    case JNull => false
    case JBool(b) => b
    case JNumber(n) => n != 0.0
    case JString(s) => s != ""
    case JArray(items) => items != []
    case JObject(fields) => fields != map[]
  }

  const EmptyObject: Json := JObject(map[])

  /** `obj.get(key, default)` on a decoded JSON object. */
  function Get(obj: map<string, Json>, key: string, default: Json): Json {
    if key in obj then obj[key] else default
  }

  /** The dictionary `classify_intent_and_entities` returns. */
  datatype Classification = Classification(intent: Json, language: Json, details: Json)

  /** What the classifier answers when every attempt failed. */
  function UnknownClassification(detectedLang: string): Classification {
    Classification(JString("unknown"), JString(detectedLang), EmptyObject)
  }

  // ---------------------------------------------------------------------------
  // classify_intent_and_entities

  /** The slice `raw[first:last+1]` between the first '{' and the last '}'
      when the reply holds both characters, the reply itself otherwise. A
      '}' that precedes every '{' makes the slice empty, as Python's slicing
      does for a start past the stop. */
  function ExtractJsonSpan(raw: string): (r: string)
    ensures ('{' !in raw || '}' !in raw) ==> r == raw
    ensures '{' in raw && '}' in raw ==>
      var first, last := Find(raw, '{'), RFind(raw, '}');
      (first <= last ==> r == raw[first..last + 1] && r[0] == '{' && r[|r| - 1] == '}')
      && (last < first ==> r == [])
  {
    var first := Find(raw, '{');
    var last := RFind(raw, '}');
    if first != -1 && last != -1 then
      if first <= last + 1 then raw[first..last + 1] else []
    else raw
  }

  /** The span is empty exactly when every '}' of the reply comes before
      every '{' of it. */
  lemma ExtractJsonSpanEmpty(raw: string)
    requires '{' in raw && '}' in raw
    ensures ExtractJsonSpan(raw) == [] <==>
      forall p, q :: 0 <= p < |raw| && 0 <= q < |raw| && raw[p] == '{' && raw[q] == '}' ==> q < p
  {
    var first, last := Find(raw, '{'), RFind(raw, '}');
    if ExtractJsonSpan(raw) == [] {
      assert forall k :: 0 <= k < first ==> raw[k] == raw[..first][k];
      assert forall k :: last < k < |raw| ==> raw[k] == raw[last + 1..][k - last - 1];
    } else {
      assert raw[first] == '{' && raw[last] == '}' && first <= last;
    }
  }

  /** The three fields with their defaults: a missing `intent` reads as
      "unknown", a missing `language` as the detected language, and a missing
      or falsy `details` as the empty object. */
  function Normalise(parsed: map<string, Json>, detectedLang: string): (c: Classification)
    ensures c.intent == if "intent" in parsed then parsed["intent"] else JString("unknown")
    ensures c.language == if "language" in parsed then parsed["language"] else JString(detectedLang)
    ensures IsTruthy(c.details) || c.details == EmptyObject
    ensures "details" in parsed && IsTruthy(parsed["details"]) ==> c.details == parsed["details"]
    ensures !("details" in parsed && IsTruthy(parsed["details"])) ==> c.details == EmptyObject
  {
    var details := Get(parsed, "details", EmptyObject);
    Classification(Get(parsed, "intent", JString("unknown")),
                   Get(parsed, "language", JString(detectedLang)),
                   if IsTruthy(details) then details else EmptyObject)
  }

  /** The dictionary of a normalised classification. */
  function AsObject(c: Classification): map<string, Json> {
    map["intent" := c.intent, "language" := c.language, "details" := c.details]
  }

  /** Normalising is idempotent: a classification already in normal form
      passes through unchanged, whatever the detected language. */
  lemma NormaliseIdempotent(parsed: map<string, Json>, detectedLang: string, otherLang: string)
    ensures var c := Normalise(parsed, detectedLang); Normalise(AsObject(c), otherLang) == c
  {
    var c := Normalise(parsed, detectedLang);
    assert "details" in AsObject(c);
  }

  /** One attempt: the model's reply (None when the call or the reply
      failed) is stripped and cut to its JSON span and decoded; only a JSON
      object is usable, anything else makes `parsed.get` raise. */
  function AttemptOutcome(reply: Option<string>, parse: string -> Option<Json>): Option<map<string, Json>> {
    match reply
    case None => None
    case Some(content) =>
      match parse(ExtractJsonSpan(Strip(content)))
      case Some(JObject(fields)) => Some(fields)
      case _ => None
  }

  /** The outcome of every attempt, in order. */
  function Outcomes(replies: seq<Option<string>>, parse: string -> Option<Json>): (outcomes: seq<Option<map<string, Json>>>)
    ensures |outcomes| == |replies|
    ensures forall k :: 0 <= k < |replies| ==> outcomes[k] == AttemptOutcome(replies[k], parse)
  {
    seq(|replies|, k requires 0 <= k < |replies| => AttemptOutcome(replies[k], parse))
  }

  /** The first present value among the outcomes `from` to `n - 1`, if any. */
  function FirstPresent<T>(outcomes: seq<Option<T>>, from: nat, n: int): Option<T>
    decreases |outcomes| - from
  {
    if from >= n || from >= |outcomes| then None
    else if outcomes[from].Some? then outcomes[from]
    else FirstPresent(outcomes, from + 1, n)
  }

  /** FirstPresent finds nothing exactly when none of the outcomes it
      looks at is present. */
  lemma {:induction false} FirstPresentNone<T>(outcomes: seq<Option<T>>, from: nat, n: int)
    requires n <= |outcomes|
    ensures FirstPresent(outcomes, from, n).None? <==> forall k :: from <= k < n ==> outcomes[k].None?
    decreases n - from
  {
    if from < n {
      FirstPresentNone(outcomes, from + 1, n);
    }
  }

  /** FirstPresent finds the earliest present outcome. */
  lemma {:induction false} FirstPresentAt<T>(outcomes: seq<Option<T>>, from: nat, n: int, k: nat)
    requires from <= k < n <= |outcomes| && outcomes[k].Some?
    requires forall j :: from <= j < k ==> outcomes[j].None?
    ensures FirstPresent(outcomes, from, n) == outcomes[k]
    decreases k - from
  {
    if from < k {
      FirstPresentAt(outcomes, from + 1, n, k);
    }
  }

  /** `classify_intent_and_entities`: up to `maxRetries` attempts, the
      `k`-th reading `replies[k]`; the first usable attempt is normalised and
      returned; if none is usable, the unknown classification is. */
  method ClassifyIntentAndEntities(replies: seq<Option<string>>, parse: string -> Option<Json>,
                                   detectedLang: string, maxRetries: int)
    returns (c: Classification)
    requires maxRetries <= |replies|
    ensures c == Chosen(FirstPresent(Outcomes(replies, parse), 0, maxRetries), detectedLang)
  {
    ghost var outcomes := Outcomes(replies, parse);
    var attempt := 0;
    while attempt < maxRetries
      invariant 0 <= attempt <= (if maxRetries < 0 then 0 else maxRetries)
      invariant FirstPresent(outcomes, 0, maxRetries) == FirstPresent(outcomes, attempt, maxRetries)
    {
      var outcome := AttemptOutcome(replies[attempt], parse);
      assert outcome == outcomes[attempt];
      if outcome.Some? {
        return Normalise(outcome.value, detectedLang);
      }
      attempt := attempt + 1;
    }
    return UnknownClassification(detectedLang);
  }

  /** The classification for the first usable attempt, if there was one. */
  function Chosen(found: Option<map<string, Json>>, detectedLang: string): Classification {
    match found
    case Some(parsed) => Normalise(parsed, detectedLang)
    case None => UnknownClassification(detectedLang)
  }

  /** The classifier's result, stated attempt by attempt: the normalised
      first usable attempt, or the unknown classification when no attempt
      among the first `maxRetries` is usable. */
  lemma ClassificationIsFirstUsable(replies: seq<Option<string>>, parse: string -> Option<Json>,
                                    detectedLang: string, maxRetries: int, k: int)
    requires maxRetries <= |replies|
    requires 0 <= k < maxRetries && AttemptOutcome(replies[k], parse).Some?
    requires forall j :: 0 <= j < k ==> AttemptOutcome(replies[j], parse).None?
    ensures FirstPresent(Outcomes(replies, parse), 0, maxRetries) == AttemptOutcome(replies[k], parse)
  {
    var outcomes := Outcomes(replies, parse);
    assert forall j :: 0 <= j < k ==> outcomes[j].None?;
    FirstPresentAt(outcomes, 0, maxRetries, k);
  }

  /** No usable attempt: the classifier answers "unknown" with the detected
      language and empty details. */
  lemma ClassificationFallsBack(replies: seq<Option<string>>, parse: string -> Option<Json>, maxRetries: int)
    requires maxRetries <= |replies|
    requires forall k :: 0 <= k < maxRetries ==> AttemptOutcome(replies[k], parse).None?
    ensures FirstPresent(Outcomes(replies, parse), 0, maxRetries).None?
  {
    var outcomes := Outcomes(replies, parse);
    assert forall k :: 0 <= k < maxRetries ==> outcomes[k].None?;
    FirstPresentNone(outcomes, 0, maxRetries);
  }

  // ---------------------------------------------------------------------------
  // translate_text_via_openai

  /** `translate_text_via_openai`: the text itself when there is no target
      language or the target starts with the source language; otherwise the
      model's stripped reply, or the text itself when the call failed. */
  function TranslateText(text: string, targetLang: string, sourceLang: string, reply: Option<string>): (r: string)
    ensures (targetLang == "" || StartsWith(targetLang, sourceLang) || reply.None?) ==> r == text
    ensures targetLang != "" && !StartsWith(targetLang, sourceLang) && reply.Some? ==> r == Strip(reply.value)
  {
    if targetLang == "" || StartsWith(targetLang, sourceLang) then text
    else match reply
      case None => text
      case Some(content) => Strip(content)
  }

  // ---------------------------------------------------------------------------
  // Rules of the main loop

  /** The eight utterances that end the conversation. */
  const ExitPhrases: seq<string> := ["exit", "quit", "stop", "bye", "goodbye", "band karo", "nikal jao", "phir milenge"]

  /** The utterance, stripped and lower-cased, is one of the exit phrases. */
  predicate IsExitPhrase(utterance: string) {
    Lower(Strip(utterance)) in ExitPhrases
  }

  /** Starts and ends with a lower-case ASCII letter. */
  predicate LetterEdged(p: string) {
    p != [] && 'a' <= p[0] <= 'z' && 'a' <= p[|p| - 1] <= 'z'
  }

  /** No exit phrase starts or ends with white space. */
  lemma ExitPhrasesAreTrimmed()
    ensures forall p :: p in ExitPhrases ==> LetterEdged(p)
  {
    assert LetterEdged("exit") && LetterEdged("quit") && LetterEdged("stop") && LetterEdged("bye");
    assert LetterEdged("goodbye") && LetterEdged("band karo") && LetterEdged("nikal jao") && LetterEdged("phir milenge");
  }

  /** An exit phrase typed in any case and padded with white space ends the
      conversation. */
  lemma ExitPhraseRecognised(pre: string, said: string, post: string)
    requires AllSpace(pre) && AllSpace(post)
    requires Lower(said) in ExitPhrases
    ensures IsExitPhrase(pre + said + post)
  {
    var p := Lower(said);
    ExitPhrasesAreTrimmed();
    assert LetterEdged(p);
    assert !IsSpace(LowerChar(said[0])) && !IsSpace(LowerChar(said[|said| - 1])) by {
      assert LowerChar(said[0]) == p[0] && LowerChar(said[|said| - 1]) == p[|p| - 1];
    }
    StripPadded(pre, said, post);
    StripTrimmed(said);
  }

  /** Conversely, an utterance that ends the conversation is an exit phrase,
      in some case, between white space. */
  lemma ExitPhraseShape(utterance: string)
    requires IsExitPhrase(utterance)
    ensures exists i, j :: (0 <= i <= j <= |utterance| && AllSpace(utterance[..i]) && AllSpace(utterance[j..])
                            && Lower(utterance[i..j]) in ExitPhrases)
  {
    StripIsSlice(utterance);
    var i, j := StripStart(utterance), StripEnd(utterance);
    assert 0 <= i <= j <= |utterance| && AllSpace(utterance[..i]) && AllSpace(utterance[j..])
      && Lower(utterance[i..j]) in ExitPhrases;
  }

  /** The language a turn is answered in: the detected one (the preferred
      one when detection failed) if speech output supports it, otherwise the
      preferred one. */
  function TurnLanguage(detection: Option<string>, preferredLang: string): (lang: string)
    ensures lang in Config.SupportedLangCodesForTts || lang == preferredLang
    ensures detection.Some? && detection.value in Config.SupportedLangCodesForTts ==> lang == detection.value
    ensures (detection.None? || detection.value !in Config.SupportedLangCodesForTts) ==> lang == preferredLang
  {
    var detected := if detection.Some? then detection.value else preferredLang;
    if detected !in Config.SupportedLangCodesForTts then preferredLang else detected
  }

  const Apology: string := "Sorry, I could not complete that request right now."

  /** The message spoken for a backend response: its truthy `message` when
      the response is an object, its text form (`shownAs`, what Python's
      `str()` gives) when it is not, and the apology when that is empty. */
  function FinalMessage(response: Json, shownAs: string): (m: Json)
    ensures IsTruthy(m)
    ensures response.JObject? && "message" in response.fields && IsTruthy(response.fields["message"]) ==>
      m == response.fields["message"]
    ensures response.JObject? && !("message" in response.fields && IsTruthy(response.fields["message"])) ==>
      m == JString(Apology)
    ensures !response.JObject? ==> m == if shownAs != "" then JString(shownAs) else JString(Apology)
  {
    var message := if response.JObject? then Get(response.fields, "message", JNull) else JString(shownAs);
    if IsTruthy(message) then message else JString(Apology)
  }

  /** The test before translating the reply of a turn. */
  predicate ShouldTranslate(turnLang: string) {
    turnLang != "" && !StartsWith(turnLang, "en")
  }

  /** The text saved and spoken for a turn: translated into the turn's
      language when that is not English, passed through otherwise. */
  function TurnReply(finalMessage: string, turnLang: string, reply: Option<string>): (r: string)
    ensures !ShouldTranslate(turnLang) ==> r == finalMessage
    ensures r != finalMessage ==> ShouldTranslate(turnLang) && reply.Some?
  {
    if ShouldTranslate(turnLang) then TranslateText(finalMessage, turnLang, "en", reply) else finalMessage
  }

  /** The loop's test agrees with the translator's own early return for
      source "en": dropping the test would not change the reply. */
  lemma TurnReplyIsTranslation(finalMessage: string, turnLang: string, reply: Option<string>)
    ensures TurnReply(finalMessage, turnLang, reply) == TranslateText(finalMessage, turnLang, "en", reply)
  {
  }

  /** `user_id.split('@')[0]`: the part of the id before its first '@', or
      the whole id when it has none. */
  function DefaultProfileName(userId: string): (name: string)
    ensures '@' !in name
    ensures StartsWith(userId, name)
    ensures |name| < |userId| ==> userId[|name|] == '@'
  {
    var at := Find(userId, '@');
    if at == -1 then userId else userId[..at]
  }

  /** The profile lookup at the start of `main`: an existing profile is used
      as stored; otherwise one is created with the default name, the default
      language and the tone "neutral", and read back. */
  method ResolveProfile(store: Store.MemoryStore, userId: string, now: Store.Timestamp)
    returns (profile: Store.Profile)
    requires store.Valid() && store.tablesCreated
    modifies store`users, store`nextUserRowId
    ensures store.Valid()
    ensures store.GetUserProfile(userId) == Some(profile)
    ensures old(store.GetUserProfile(userId)).Some? ==>
      profile == old(store.GetUserProfile(userId)).value && store.users == old(store.users)
    ensures old(store.GetUserProfile(userId)).None? ==>
      profile == Store.Profile(DefaultProfileName(userId), Config.DefaultLanguage, "neutral")
    ensures old(store.GetUserProfile(userId)).None? ==>
      store.users == old(store.users) +
        [Store.UserRow(old(store.nextUserRowId), userId, DefaultProfileName(userId), Config.DefaultLanguage, "neutral", now)]
    ensures store.nextUserRowId ==
      old(store.nextUserRowId) + (if old(store.GetUserProfile(userId)).None? then 1 else 0)
  {
    var found := store.GetUserProfile(userId);
    if found.None? {
      store.CreateUserProfile(userId, DefaultProfileName(userId), Config.DefaultLanguage, "neutral", now);
      found := store.GetUserProfile(userId);
    }
    profile := found.value;
  }
}
