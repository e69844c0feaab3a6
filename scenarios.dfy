/** The store's behaviour on concrete runs: a fresh database, `init_db`,
    and a few calls, with what the calls return afterwards. */
module StoreScenarios {
  import opened Wrappers
  import opened Store

  /** Creating a profile twice keeps the one row the first call wrote:
      the second call's name, language and tone are ignored, yet it uses up
      id 2, so the next user would get id 3. */
  method ProfileCreatedOnce(userId: string, name: string, otherName: string, otherLanguage: string,
                            otherTone: string, now: Timestamp, later: Timestamp)
    returns (profile: Option<Profile>, rows: nat, nextId: nat)
    ensures profile == Some(Profile(name, DefaultLanguageArg, DefaultToneArg))
    ensures rows == 1
    ensures nextId == 3
  {
    var store := new MemoryStore();
    store.InitDb();
    assert store.users == [] && store.nextUserRowId == 1;
    store.CreateUserProfile(userId, name, DefaultLanguageArg, DefaultToneArg, now);
    assert store.users == [UserRow(1, userId, name, DefaultLanguageArg, DefaultToneArg, now)];
    store.CreateUserProfile(userId, otherName, otherLanguage, otherTone, later);
    profile := store.GetUserProfile(userId);
    rows := |store.users|;
    nextId := store.nextUserRowId;
  }

  /** Two messages of one user come back in the order they were saved,
      under any limit that admits both. */
  method ContextInSavedOrder(u: string, role1: string, text1: string, role2: string, text2: string,
                             now: Timestamp, limit: int) returns (context: seq<ContextEntry>)
    requires limit < 0 || limit >= 2
    ensures context == [ContextEntry(role1, text1), ContextEntry(role2, text2)]
  {
    var store := new MemoryStore();
    store.InitDb();
    assert store.conversation == [] && store.nextMessageId == 1;
    store.SaveMessage(u, role1, text1, now);
    ghost var first := MessageRow(1, u, role1, text1, now);
    assert store.conversation == [first] && store.nextMessageId == 2;
    store.SaveMessage(u, role2, text2, now);
    ghost var second := MessageRow(2, u, role2, text2, now);
    assert store.conversation == [first] + [second];
    context := store.GetRecentContext(u, limit);
    OwnPair(first, second, limit);
  }

  /** A log of two messages of one user: any limit of two or more, or none,
      returns both. */
  lemma OwnPair(first: MessageRow, second: MessageRow, limit: int)
    requires first.userId == second.userId
    requires limit < 0 || limit >= 2
    ensures RecentContext([first, second], first.userId, limit) ==
      [ContextEntry(first.role, first.message), ContextEntry(second.role, second.message)]
  {
    UserMessagesAllOwn([first, second], first.userId);
  }

  /** One user says `texts` in order; asking for the recent context then
      returns the newest `limit` of them (all of them for a negative limit),
      oldest first. With ten texts and a limit of three that is the last three. */
  method SaveAllThenRecent(u: string, texts: seq<string>, now: Timestamp, limit: int)
    returns (context: seq<ContextEntry>)
    ensures var k := if limit < 0 || limit > |texts| then |texts| else limit;
      context == Said(texts[|texts| - k..])
  {
    var store := SaveAll(u, texts, now);
    context := store.GetRecentContext(u, limit);
    SavedRowsWindow(u, texts, now, limit);
  }

  /** Called without a limit, `get_recent_context` returns the last eight
      texts, or all of them when there are no more than eight. */
  method RecentWithDefaultLimit(u: string, texts: seq<string>, now: Timestamp)
    returns (context: seq<ContextEntry>)
    ensures |texts| <= 8 ==> context == Said(texts)
    ensures |texts| >= 8 ==> context == Said(texts[|texts| - 8..])
  {
    var store := SaveAll(u, texts, now);
    context := store.GetRecentContext(u, DefaultContextLimit);
    SavedRowsWindow(u, texts, now, DefaultContextLimit);
    assert texts[0..] == texts;
  }

  /** A fresh store into which `u` has said `texts`, one `save_message` each. */
  method SaveAll(u: string, texts: seq<string>, now: Timestamp) returns (store: MemoryStore)
    ensures fresh(store) && store.Valid() && store.tablesCreated
    ensures store.conversation == SavedRows(u, texts, now)
  {
    store := new MemoryStore();
    store.InitDb();
    assert store.conversation == SavedRows(u, texts[..0], now);
    var i := 0;
    while i < |texts|
      invariant 0 <= i <= |texts|
      invariant store.Valid() && store.tablesCreated
      invariant store.conversation == SavedRows(u, texts[..i], now) && store.nextMessageId == i + 1
    {
      SavedRowsExtend(u, texts, i, now);
      store.SaveMessage(u, "user", texts[i], now);
      i := i + 1;
    }
    assert texts[..i] == texts;
  }

  /** The log after `u` has said `texts` into an empty store. */
  function SavedRows(u: string, texts: seq<string>, now: Timestamp): (log: seq<MessageRow>)
    ensures |log| == |texts|
    ensures forall k :: 0 <= k < |log| ==> log[k] == MessageRow(k + 1, u, "user", texts[k], now)
  {
    seq(|texts|, k requires 0 <= k < |texts| => MessageRow(k + 1, u, "user", texts[k], now))
  }

  lemma SavedRowsExtend(u: string, texts: seq<string>, i: nat, now: Timestamp)
    requires i < |texts|
    ensures SavedRows(u, texts[..i + 1], now) == SavedRows(u, texts[..i], now) + [MessageRow(i + 1, u, "user", texts[i], now)]
  {
  }

  /** The recent context of such a log is the newest `limit` texts. */
  lemma SavedRowsWindow(u: string, texts: seq<string>, now: Timestamp, limit: int)
    ensures var k := if limit < 0 || limit > |texts| then |texts| else limit;
      RecentContext(SavedRows(u, texts, now), u, limit) == Said(texts[|texts| - k..])
  {
    var log := SavedRows(u, texts, now);
    OwnLogWindow(log, u, limit);
    var k := if limit < 0 || limit > |texts| then |texts| else limit;
    var w := log[|log| - k..];
    assert forall q :: 0 <= q < k ==> w[q] == log[|log| - k + q];
  }

  /** The entries of user turns saying `texts`. */
  function Said(texts: seq<string>): (c: seq<ContextEntry>)
    ensures |c| == |texts|
    ensures forall k :: 0 <= k < |texts| ==> c[k] == ContextEntry("user", texts[k])
  {
    seq(|texts|, k requires 0 <= k < |texts| => ContextEntry("user", texts[k]))
  }

  /** When every message in the log is `u`'s, `u`'s window is the log's
      newest `limit` rows. */
  lemma OwnLogWindow(log: seq<MessageRow>, u: string, limit: int)
    requires forall i :: 0 <= i < |log| ==> log[i].userId == u
    ensures var k := if limit < 0 || limit > |log| then |log| else limit;
      RecentContext(log, u, limit) == Entries(log[|log| - k..])
  {
    UserMessagesAllOwn(log, u);
  }

  /** A session opened and then closed is closed at the closing time. */
  method SessionClosed(userId: string, start: Timestamp, end: Timestamp) returns (sessions: seq<SessionRow>)
    ensures sessions == [SessionRow(1, userId, start, Some(end))]
  {
    var store := new MemoryStore();
    store.InitDb();
    assert store.sessions == [] && store.nextSessionId == 1;
    store.StartSession(userId, start);
    assert store.sessions == [SessionRow(1, userId, start, None)];
    CloseOneOpen(SessionRow(1, userId, start, None), end);
    store.EndSession(userId, end);
    sessions := store.sessions;
  }

  /** Closing the sessions of a table holding one open session closes it. */
  lemma CloseOneOpen(row: SessionRow, now: Timestamp)
    requires row.sessionEnd.None?
    ensures CloseSessionsWhere([row], row.userId, now) == [row.(sessionEnd := Some(now))]
  {
  }
}
