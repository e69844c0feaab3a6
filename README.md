# Voice banking assistant: local memory and decision rules

The assistant is a voice loop. It listens to a customer, works out what
they want with a language model, asks a banking backend to act, and speaks
the answer, translated into the customer's language when needed. It keeps a
small local memory in SQLite, in `memory.db`, which holds:

- `users`: one profile per `user_id`, with the preferred language and voice tone;
- `conversation`: an append-only log of what the user and the assistant said;
- `sessions`: one row per run of the loop, with an open or closed end time.

This project models that memory (`database.py`) as an imperative Dafny
class. It also models the pure decision rules of the loop (`app_og.py`) as
functions and lemmas.

- `wrappers.dfy`: `Option`, standing for Python's `None` beside a value.
- `text.dfy` (`Text`): the Python string operations the rules use. These are
  `strip()` with the exact `str.isspace()` set, `lower()`, `find`, `rfind`
  and `startswith`.
- `config.dfy` (`Config`): `DEFAULT_LANGUAGE` and `SUPPORTED_LANG_CODES_FOR_TTS`.
- `store.dfy` (`Store`): the class `MemoryStore` has the three tables as
  `seq` fields and the three AUTOINCREMENT counters. It has one method per
  operation of `database.py`. Each method is specified by specification
  functions over the tables (`FindUser`, `ApplyPreferences`,
  `CloseSessionsWhere`, `Window`/`RecentContext`), and lemmas prove what the
  operations promise.
  - `get_recent_context` is a backward scan over the log, which is the
    `ORDER BY id DESC LIMIT` query. It is followed by an in-place reversal
    of an array, which is `rows.reverse()`.
- `assistant.dfy` (`Assistant`): the brace-span extraction and result
  defaults of the classifier, and its retry loop over given replies. Also
  the translator's early return, the turn-language fallback, the exit-phrase
  test, the final-message fallback, the default profile name, and the
  profile lookup at the start of `main`.
- `scenarios.dfy` (`StoreScenarios`): concrete runs on a fresh store, each
  proved to give the expected result.

SQLite behaviour that the model writes out:

- ids start at 1 and increase;
- `INSERT OR IGNORE` on an existing `user_id` still uses up an id, because SQLite draws the
  AUTOINCREMENT id before the UNIQUE check;
- a negative `LIMIT` means no limit.

`end_session` closes every open session of the user, not only the most
recently opened one (database.py:98-102). `update_user_preferences` ignores
falsy arguments (the empty string as well as `None`).

## Model

| member | source | states |
|---|---|---|
| Text.SkipSpace | app_og.py:333 | the forward scan of `strip()` passes only white space and stops at the first other character or at the end |
| Text.SkipSpaceBack | app_og.py:333 | the backward scan of `strip()` passes only white space and stops after the last other character or at the forward scan's stop |
| Text.SkipSpaceAt | app_og.py:333 | the forward scan stops at the one index with only white space before it and no white space at it |
| Text.SkipSpaceBackAt | app_og.py:333 | the backward scan stops at the one index with only white space after it and no white space just before it |
| Text.Strip | app_og.py:180 | `strip()` leaves no white space at either end |
| Text.StripIsSlice | app_og.py:333 | `strip()` returns a slice of the text with only white space cut off before and after it |
| Text.StripPadded | app_og.py:333 | `strip()` of a text padded with white space equals `strip()` of the text |
| Text.StripTrimmed | app_og.py:333 | a text with no white space at either end is its own `strip()` |
| Text.StripEmbedded | app_og.py:333 | a text placed anywhere inside white space strips to the text's own `strip()` |
| Text.LowerChar | app_og.py:333 | `lower()` of one character maps A-Z 32 code points up and keeps white space as white space |
| Text.LowerIsLowerCase | app_og.py:333 | `lower()` keeps the length, leaves no ASCII capital, and keeps white space exactly where it was |
| Text.LowerIdempotent | app_og.py:333 | lower-casing twice gives the same text as lower-casing once |
| Text.Find | app_og.py:182 | `find`: -1 exactly when the character is absent, otherwise the index of its first occurrence |
| Text.RFind | app_og.py:183 | `rfind`: -1 exactly when the character is absent, otherwise the index of its last occurrence |
| Store.FindUser | database.py:62-65 | the lookup finds nothing exactly when no row has the `user_id`, and otherwise a row of the table with that `user_id` |
| Store.FindUserUnique | database.py:15 | since `user_id` is UNIQUE, the row found is the one row of that user |
| Store.InsertNewUser | database.py:14-15 | appending a new user's row with the next id keeps ids increasing and `user_id` unique |
| Store.ApplyPreferences | database.py:76-79 | the user's rows get each preference only from a truthy argument; `name`, `created_at` and other users' rows are untouched |
| Store.ApplyPreferencesKeepsTable | database.py:73-81 | the preference update keeps the users table's invariant |
| Store.ApplyPreferencesNoop | database.py:73-81 | an unknown user, or no truthy argument, leaves the table unchanged |
| Store.FindUserAfterUpdate | database.py:73-81 | after the update the lookup finds the same user's row with the new preferences, and still nothing for an unknown user |
| Store.CloseSessionsWhere | database.py:98-102 | every open session of the user is closed at `now`; closed rows and other users' rows are untouched; afterwards the user has no open session; with none open nothing changes |
| Store.CloseSessionsKeepsTable | database.py:98-102 | closing sessions keeps the sessions table's invariant |
| Store.UserMessages | database.py:122-123 | filtering by user yields at most as many rows as the log |
| Store.UserMessagesSound | database.py:122-123 | every filtered row is in the log and belongs to the user |
| Store.UserMessagesComplete | database.py:122-123 | every row of the user in the log is among the filtered rows |
| Store.UserMessagesAscending | database.py:124 | filtering keeps ids ascending |
| Store.UserMessagesAppend | database.py:122-123 | filtering distributes over concatenation of logs |
| Store.UserMessagesAllOwn | database.py:122-123 | a log of only the user's rows is left whole by the filter |
| Store.EntriesAppend | database.py:129 | each row becomes its `{"role", "content"}` entry independently of the others, so the entries of joined runs of rows are the joined entries |
| Store.WindowSize | database.py:118-129 | the window has `min(limit, count)` entries, all of them for a negative limit, and none for limit 0 |
| Store.WindowIsNewest | database.py:121-128 | the window is in ascending id order, holds only the user's messages, and every message of the user left out is older than every message in it |
| Store.WindowAscending | database.py:124-128 | the window's ids ascend |
| Store.WindowSound | database.py:122-123 | every message of the window is the user's and is in the log |
| Store.LeftOutIsOlder | database.py:124 | messages of the user outside the window are older than all messages in it |
| Store.RecentAfterOwnSave | database.py:107-129 | saving a message of the user puts it at the newest end of the user's window and drops the oldest entry when the window was full |
| Store.WindowAfterOwnSave | database.py:107-124 | the same for the rows of the window |
| Store.OwnMessageAppended | database.py:107-123 | a saved message of the user is the last of the user's messages |
| Store.RecentAfterOtherSave | database.py:107-129 | saving another user's message leaves the user's window unchanged |
| Store.ScanStep | database.py:121-126 | one step of the newest-first scan adds the row at the end of the rows found when it is the user's |
| Store.ScanWindow | database.py:121-128 | when the scan stops at the start of the log or with `limit` rows, the rows found, reversed, are the window |
| Store.ReverseRows | database.py:128 | the array is reversed in place |
| Store.MemoryStore.constructor | database.py:4 | a database file with no tables yet: no rows, counters at 1 |
| Store.MemoryStore.InitDb | database.py:7-45 | the tables exist afterwards; on existing tables nothing changes |
| Store.MemoryStore.GetUserProfile | database.py:59-70 | None exactly when no row has the `user_id`, otherwise that row's name, language and tone |
| Store.MemoryStore.CreateUserProfile | database.py:48-56 | an existing user leaves the table unchanged; otherwise exactly one row with the given values and the next id is appended; either way the id counter advances by one and the stored profile is the first one written |
| Store.MemoryStore.UpdateUserPreferences | database.py:73-81 | the table becomes `ApplyPreferences` of the old one; an unknown user or no truthy argument changes nothing; the lookup afterwards finds the updated row |
| Store.MemoryStore.StartSession | database.py:84-92 | exactly one open row for the user is appended with the next id, earlier rows unchanged, a second open session not refused |
| Store.MemoryStore.EndSession | database.py:95-104 | the sessions become `CloseSessionsWhere` of the old ones, and the user has no open session |
| Store.MemoryStore.SaveMessage | database.py:107-116 | one row is appended whose id exceeds every earlier id; earlier rows and the sessions are unchanged |
| Store.MemoryStore.GetRecentContext | database.py:118-129 | the result is `RecentContext` of the log, the newest `limit` messages of the user oldest first, and nothing is modified |
| Assistant.ExtractJsonSpan | app_og.py:182-185 | the reply is unchanged unless it holds both braces; otherwise it is the slice from the first '{' to the last '}', which starts with '{' and ends with '}', or empty when the '}' comes first |
| Assistant.ExtractJsonSpanEmpty | app_og.py:182-185 | the span is empty exactly when every '}' precedes every '{' |
| Assistant.Normalise | app_og.py:187-191 | `intent` defaults to "unknown" and `language` to the detected language, and a present key keeps its value; `details` is the parsed value exactly when that is present and truthy, and `{}` otherwise |
| Assistant.NormaliseIdempotent | app_og.py:187-191 | a normalised result normalises to itself |
| Assistant.FirstPresentNone | app_og.py:169-196 | the search of the retry loop finds nothing exactly when every attempt in range failed |
| Assistant.FirstPresentAt | app_og.py:169-191 | when attempt `k` succeeded and every earlier one failed, the search finds attempt `k`'s object |
| Assistant.ClassifyIntentAndEntities | app_og.py:167-196 | the result is the normalised first usable attempt among the first `max_retries`, or `{"unknown", detected_lang, {}}` when none is usable |
| Assistant.ClassificationIsFirstUsable | app_og.py:169-191 | when attempt `k` is the first usable one, its object is the one normalised |
| Assistant.ClassificationFallsBack | app_og.py:192-196 | when no attempt is usable, the fallback classification is returned |
| Assistant.TranslateText | app_og.py:199-214 | the text is returned unchanged when the target is empty or starts with the source language, or when the call fails; otherwise the stripped reply |
| Assistant.ExitPhrasesAreTrimmed | app_og.py:333 | every exit phrase begins and ends with a lower-case letter |
| Assistant.ExitPhraseRecognised | app_og.py:333 | an exit phrase in any case, padded with white space, ends the loop |
| Assistant.ExitPhraseShape | app_og.py:333 | an utterance ends the loop only if it is an exit phrase, in some case, between white space |
| Assistant.TurnLanguage | app_og.py:338-340 | the turn's language is supported for speech or is the preferred one; a supported detection is kept, a failed or unsupported one falls back to the preferred language |
| Assistant.FinalMessage | app_og.py:370-372 | the spoken message is never falsy; it is the backend's truthy `message`, else the apology for an object, else the text form of a non-object response unless that is empty |
| Assistant.TurnReply | app_og.py:375-381 | the message passes through unchanged unless the turn language is non-empty and not English; it changes only when translation ran and the model replied |
| Assistant.TurnReplyIsTranslation | app_og.py:375-381 | the loop's test agrees with the translator's own early return for source "en" |
| Assistant.DefaultProfileName | app_og.py:293 | the name is the prefix of the user id before its first '@', or the whole id |
| Assistant.ResolveProfile | app_og.py:290-294 | an existing profile is used unchanged and the store is left as it was; otherwise exactly one row with the default name, default language and tone "neutral" and the next id is appended, every earlier row is kept, the id counter advances by one, and the new profile is read back |
| StoreScenarios.ProfileCreatedOnce | database.py:48-70 | creating a profile twice keeps the one row the first call wrote, and the ignored second insert still uses up id 2 |
| StoreScenarios.ContextInSavedOrder | database.py:107-129 | two saved messages come back in the order they were saved |
| StoreScenarios.OwnPair | database.py:118-129 | a two-message log of one user is returned whole under a limit of two or more, or none |
| StoreScenarios.RecentWithDefaultLimit | database.py:118-129 | with the default limit of 8 the context is the last eight texts said, or all of them when there are fewer |
| StoreScenarios.SaveAllThenRecent | database.py:107-129 | after a user says `texts`, the context is the newest `limit` of them, oldest first |
| StoreScenarios.SavedRowsWindow | database.py:118-129 | the context of such a log is the newest `limit` texts |
| StoreScenarios.OwnLogWindow | database.py:118-129 | on a log of one user the window is the newest `limit` rows |
| StoreScenarios.SessionClosed | database.py:84-104 | a session opened and then ended is closed at the end time |

## Left out

- SQLite connections, `commit`, `close` and the file `memory.db` are not modelled: each operation is one method call on the in-memory tables.
- `datetime.now().isoformat()` is a parameter `now` (an opaque text).
- Calling an operation before `init_db` raises "no such table" in SQLite. The model makes `init_db` a precondition (`tablesCreated`) of the writes, and does not model that error.
- Store.MemoryStore.GetUserProfile: has no `tablesCreated` precondition, and neither has Store.MemoryStore.GetRecentContext. On a store without tables the first returns None and the second the empty list, where SQLite would raise.
- SQL NULL in the text columns, other than `session_end`, is not modelled; every value passed in is a text.
- Speech input and output are not modelled: the microphone, Whisper transcription, gTTS, `playsound` and the temporary audio files.
- The OpenAI chat calls, `langdetect`, `json.loads` and the retry pause `time.sleep(0.3)` are not modelled. Their outputs enter as parameters: a reply per attempt (`None` when the call failed), a `parse` function and a detection result.
- The HTTP calls to the backend and `handle_flexible_response` are not modelled; they are network I/O and printing.
- The interactive `while True` loop of `main` is modelled only through the rules above and the profile lookup. The greeting and goodbye texts, the payload layout, and `end_session` in `finally` are left out.
- `MAX_CONTEXT_MESSAGES` is imported from `config.py`, which is not part of this model. `config_example.py` does not define it, so the limit is a parameter.
- API keys, URLs and file names in `config_example.py` are not modelled.
- Text.LowerChar: models `str.lower()` for A-Z and KELVIN SIGN only, one character to one character; every other character is kept. Python lower-cases other capitals too, and some into more than one character ('İ' becomes 'i' followed by U+0307 COMBINING DOT ABOVE). The exit-phrase test stays exact: every exit phrase is made of ASCII lower-case letters and spaces, and no other character lower-cases into exactly such a run of characters, since any longer lowering carries a combining mark and any other one-character lowering is not ASCII.
- Integer width: `limit` and the row ids are unbounded integers. Python hands `limit` to SQLite as a 64-bit integer, so a limit of 2^63 or more raises OverflowError in the source; the model returns the window for it instead.
- Assistant.FinalMessage: yields the backend's `message` as a JSON value; the model of the rest of the turn, Assistant.TurnReply and Store.MemoryStore.SaveMessage, takes text. A truthy `message` that is not a string (a number or a list, at app_og.py:370) is passed on as such to the translator and to `save_message` (app_og.py:384) in the source; the model does not carry such a value through.
- JSON numbers are `real`; NaN and infinities from `json.loads` are not modelled.
- Assistant.FinalMessage: the `str()` form of a non-object backend response is passed in as `shownAs`.
- Assistant.ClassifyIntentAndEntities: requires at least `max_retries` replies to be given, one per possible attempt.
