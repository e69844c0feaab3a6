/** The assistant's local memory (database.py): three tables kept in one
    SQLite file, modelled as three sequences of rows held by one object.
    Every operation of database.py opens a connection, runs one or two
    statements, commits and closes; here each is one method call. The
    wall-clock time an operation stamps on a row is passed in as `now`. */
module Store {
  import opened Wrappers

  /** The text `datetime.now().isoformat()` produced when a row was written. */
  type Timestamp = string

  /** A row of `users` (database.py:13-20). */
  datatype UserRow = UserRow(id: nat, userId: string, name: string, preferredLanguage: string,
                             voiceTone: string, createdAt: Timestamp)

  /** A row of `conversation` (database.py:25-31). */
  datatype MessageRow = MessageRow(id: nat, userId: string, role: string, message: string,
                                   timestamp: Timestamp)

  /** A row of `sessions` (database.py:36-41); `sessionEnd == None` is SQL NULL: the session is open. */
  datatype SessionRow = SessionRow(id: nat, userId: string, sessionStart: Timestamp,
                                   sessionEnd: Option<Timestamp>)

  /** The dictionary `get_user_profile` returns: `{"name", "language", "tone"}`. */
  datatype Profile = Profile(name: string, language: string, tone: string)

  /** One element of the list `get_recent_context` returns: `{"role", "content"}`. */
  datatype ContextEntry = ContextEntry(role: string, content: string)

  /** Default arguments of `create_user_profile` and `get_recent_context`. */
  const DefaultLanguageArg: string := "en"
  const DefaultToneArg: string := "neutral"
  const DefaultContextLimit: int := 8

  /** Python truthiness of an optional text argument: `None` and "" are false. */
  predicate Truthy(arg: Option<string>) {
    arg.Some? && arg.value != ""
  }

  // ---------------------------------------------------------------------------
  // Table invariants: AUTOINCREMENT ids are positive, below the table's next
  // id and increase with insertion order; `users.user_id` is UNIQUE.

  predicate UsersTableOk(users: seq<UserRow>, nextId: nat) {
    0 < nextId
    && (forall i :: 0 <= i < |users| ==> 0 < users[i].id < nextId)
    && (forall i, j :: 0 <= i < j < |users| ==> users[i].id < users[j].id && users[i].userId != users[j].userId)
  }

  /** Message ids increase strictly along the log. */
  predicate Ascending(log: seq<MessageRow>) {
    forall i, j :: 0 <= i < j < |log| ==> log[i].id < log[j].id
  }

  predicate ConversationTableOk(log: seq<MessageRow>, nextId: nat) {
    0 < nextId && (forall i :: 0 <= i < |log| ==> 0 < log[i].id < nextId) && Ascending(log)
  }

  predicate SessionsTableOk(sessions: seq<SessionRow>, nextId: nat) {
    0 < nextId
    && (forall i :: 0 <= i < |sessions| ==> 0 < sessions[i].id < nextId)
    && (forall i, j :: 0 <= i < j < |sessions| ==> sessions[i].id < sessions[j].id)
  }

  // ---------------------------------------------------------------------------
  // Specification functions over the tables.

  /** `SELECT ... FROM users WHERE user_id = ?` followed by `fetchone()`:
      the first row with that `user_id`, or nothing. */
  function FindUser(users: seq<UserRow>, userId: string): (r: Option<UserRow>)
    ensures r.None? <==> forall i :: 0 <= i < |users| ==> users[i].userId != userId
    ensures r.Some? ==> r.value in users && r.value.userId == userId
  {
    if users == [] then None
    else if users[0].userId == userId then Some(users[0])
    else
      var r := FindUser(users[1..], userId);
      assert forall i :: 1 <= i < |users| ==> users[i] == users[1..][i - 1];
      r
  }

  /** Because `user_id` is UNIQUE, the row found is THE row of that user. */
  lemma {:induction false} FindUserUnique(users: seq<UserRow>, nextId: nat, userId: string, k: nat)
    requires UsersTableOk(users, nextId)
    requires k < |users| && users[k].userId == userId
    ensures FindUser(users, userId) == Some(users[k])
  {
    if k > 0 {
      assert users[0].userId != userId;
      assert UsersTableOk(users[1..], nextId);
      FindUserUnique(users[1..], nextId, userId, k - 1);
    }
  }

  /** Appending the row of a user not yet in the table, with the next id,
      keeps the table's invariant. */
  lemma InsertNewUser(users: seq<UserRow>, nextId: nat, row: UserRow)
    requires UsersTableOk(users, nextId)
    requires row.id == nextId && FindUser(users, row.userId).None?
    ensures UsersTableOk(users + [row], nextId + 1)
  {
    var rows := users + [row];
    assert forall i :: 0 <= i < |users| ==> rows[i] == users[i] && users[i].userId != row.userId;
  }

  function ProfileOf(row: UserRow): Profile {
    Profile(row.name, row.preferredLanguage, row.voiceTone)
  }

  /** `UPDATE users SET preferred_language = ? WHERE user_id = ?`. */
  function SetLanguageWhere(users: seq<UserRow>, userId: string, language: string): seq<UserRow> {
    seq(|users|, i requires 0 <= i < |users| =>
      if users[i].userId == userId then users[i].(preferredLanguage := language) else users[i])
  }

  /** `UPDATE users SET voice_tone = ? WHERE user_id = ?`. */
  function SetToneWhere(users: seq<UserRow>, userId: string, tone: string): seq<UserRow> {
    seq(|users|, i requires 0 <= i < |users| =>
      if users[i].userId == userId then users[i].(voiceTone := tone) else users[i])
  }

  /** A user row as `update_user_preferences` leaves it: each preference
      replaced only by a truthy argument. */
  function WithPreferences(row: UserRow, language: Option<string>, tone: Option<string>): UserRow {
    row.(preferredLanguage := if Truthy(language) then language.value else row.preferredLanguage,
         voiceTone := if Truthy(tone) then tone.value else row.voiceTone)
  }

  /** After the preference update the lookup finds the same row, updated. */
  lemma {:induction false} FindUserAfterUpdate(users: seq<UserRow>, rows: seq<UserRow>, userId: string,
                                               language: Option<string>, tone: Option<string>)
    requires |rows| == |users|
    requires forall i :: 0 <= i < |users| ==>
      rows[i] == (if users[i].userId == userId then WithPreferences(users[i], language, tone) else users[i])
    ensures FindUser(rows, userId) ==
      match FindUser(users, userId)
      case None => None
      case Some(row) => Some(WithPreferences(row, language, tone))
  {
    if users != [] && users[0].userId != userId {
      FindUserAfterUpdate(users[1..], rows[1..], userId, language, tone);
    }
  }

  /** The two UPDATE statements of `update_user_preferences`, each run only
      for a truthy argument: the rows of `userId` get WithPreferences, the
      other rows stay as they were. */
  function ApplyPreferences(users: seq<UserRow>, userId: string,
                            language: Option<string>, tone: Option<string>): (rows: seq<UserRow>)
    ensures |rows| == |users|
    ensures forall i :: 0 <= i < |users| ==>
      rows[i] == (if users[i].userId == userId then WithPreferences(users[i], language, tone) else users[i])
  {
    var afterLanguage := if Truthy(language) then SetLanguageWhere(users, userId, language.value) else users;
    if Truthy(tone) then SetToneWhere(afterLanguage, userId, tone.value) else afterLanguage
  }

  /** The update keeps ids and user ids, hence the table invariant. */
  lemma ApplyPreferencesKeepsTable(users: seq<UserRow>, nextId: nat, userId: string,
                                   language: Option<string>, tone: Option<string>)
    requires UsersTableOk(users, nextId)
    ensures UsersTableOk(ApplyPreferences(users, userId, language, tone), nextId)
  {
    var rows := ApplyPreferences(users, userId, language, tone);
    assert forall i :: 0 <= i < |rows| ==> rows[i].id == users[i].id && rows[i].userId == users[i].userId;
  }

  /** An unknown user, or no truthy argument, leaves the table as it was. */
  lemma ApplyPreferencesNoop(users: seq<UserRow>, userId: string, language: Option<string>, tone: Option<string>)
    requires FindUser(users, userId).None? || (!Truthy(language) && !Truthy(tone))
    ensures ApplyPreferences(users, userId, language, tone) == users
  {
    var rows := ApplyPreferences(users, userId, language, tone);
    forall i | 0 <= i < |users| ensures rows[i] == users[i] {
      if users[i].userId == userId {
        assert !Truthy(language) && !Truthy(tone);
      }
    }
  }

  /** True when some session row of `userId` has a NULL `session_end`. */
  predicate HasOpenSession(sessions: seq<SessionRow>, userId: string) {
    exists i :: 0 <= i < |sessions| && sessions[i].userId == userId && sessions[i].sessionEnd.None?
  }

  /** `UPDATE sessions SET session_end = ? WHERE user_id = ? AND session_end
      IS NULL`: every open session of `userId` is closed at `now`; closed
      sessions and other users' sessions are untouched, and when the user
      had no open session nothing changes. */
  function CloseSessionsWhere(sessions: seq<SessionRow>, userId: string, now: Timestamp): (r: seq<SessionRow>)
    ensures |r| == |sessions|
    ensures forall i :: 0 <= i < |sessions| ==>
      r[i] == if sessions[i].userId == userId && sessions[i].sessionEnd.None?
              then sessions[i].(sessionEnd := Some(now))
              else sessions[i]
    ensures !HasOpenSession(r, userId)
    ensures !HasOpenSession(sessions, userId) ==> r == sessions
  {
    var r := seq(|sessions|, i requires 0 <= i < |sessions| =>
      if sessions[i].userId == userId && sessions[i].sessionEnd.None?
      then sessions[i].(sessionEnd := Some(now))
      else sessions[i]);
    assert !HasOpenSession(sessions, userId) ==> r == sessions;
    r
  }

  /** Closing sessions keeps ids and the table invariant. */
  lemma CloseSessionsKeepsTable(sessions: seq<SessionRow>, userId: string, now: Timestamp, nextId: nat)
    requires SessionsTableOk(sessions, nextId)
    ensures SessionsTableOk(CloseSessionsWhere(sessions, userId, now), nextId)
  {
    var r := CloseSessionsWhere(sessions, userId, now);
    assert forall i :: 0 <= i < |r| ==> r[i].id == sessions[i].id;
  }

  /** The messages of user `u`, in log (that is, id) order. */
  function UserMessages(log: seq<MessageRow>, u: string): (r: seq<MessageRow>)
    ensures |r| <= |log|
  {
    if log == [] then []
    else (if log[0].userId == u then [log[0]] else []) + UserMessages(log[1..], u)
  }

  /** The rows `SELECT role, message FROM conversation WHERE user_id = ?
      ORDER BY id DESC LIMIT ?` picks, put back in ascending id order. A
      negative LIMIT is no limit in SQLite. */
  function Window(log: seq<MessageRow>, u: string, limit: int): seq<MessageRow> {
    var mine := UserMessages(log, u);
    var k := if limit < 0 || limit > |mine| then |mine| else limit;
    mine[|mine| - k..]
  }

  /** The list comprehension building `{"role", "content"}` dictionaries. */
  function Entries(rows: seq<MessageRow>): seq<ContextEntry> {
    seq(|rows|, i requires 0 <= i < |rows| => ContextEntry(rows[i].role, rows[i].message))
  }

  /** Building the entries of two runs of rows one after the other gives
      the entries of the joined rows: each entry depends on its row alone. */
  lemma EntriesAppend(a: seq<MessageRow>, b: seq<MessageRow>)
    ensures Entries(a + b) == Entries(a) + Entries(b)
  {
    assert forall k :: 0 <= k < |b| ==> (a + b)[|a| + k] == b[k];
  }

  /** What `get_recent_context(u, limit)` returns for the log `log`. */
  function RecentContext(log: seq<MessageRow>, u: string, limit: int): seq<ContextEntry> {
    Entries(Window(log, u, limit))
  }

  function Reversed<T>(s: seq<T>): (r: seq<T>)
    ensures |r| == |s|
    ensures forall i :: 0 <= i < |s| ==> r[i] == s[|s| - 1 - i]
  {
    seq(|s|, i requires 0 <= i < |s| => s[|s| - 1 - i])
  }

  // ---------------------------------------------------------------------------
  // Properties of the context window.

  /** Filtering a log by user distributes over concatenation. */
  lemma {:induction false} UserMessagesAppend(a: seq<MessageRow>, b: seq<MessageRow>, u: string)
    ensures UserMessages(a + b, u) == UserMessages(a, u) + UserMessages(b, u)
  {
    if a == [] {
      assert a + b == b;
    } else {
      var head := if a[0].userId == u then [a[0]] else [];
      assert (a + b)[0] == a[0];
      assert (a + b)[1..] == a[1..] + b;
      assert UserMessages(a + b, u) == head + UserMessages(a[1..] + b, u);
      UserMessagesAppend(a[1..], b, u);
      assert UserMessages(a, u) == head + UserMessages(a[1..], u);
      assert head + (UserMessages(a[1..], u) + UserMessages(b, u))
          == (head + UserMessages(a[1..], u)) + UserMessages(b, u);
    }
  }

  /** Every message of `u` in the log is among the messages filtered for `u`. */
  lemma {:induction false} UserMessagesComplete(log: seq<MessageRow>, u: string, i: nat)
    requires i < |log| && log[i].userId == u
    ensures log[i] in UserMessages(log, u)
  {
    if i > 0 {
      assert log[i] == log[1..][i - 1];
      UserMessagesComplete(log[1..], u, i - 1);
    }
  }

  /** Every message filtered for `u` is in the log and is `u`'s. */
  lemma {:induction false} UserMessagesSound(log: seq<MessageRow>, u: string)
    ensures forall m :: m in UserMessages(log, u) ==> m in log && m.userId == u
  {
    if log != [] {
      UserMessagesSound(log[1..], u);
    }
  }

  /** Filtering keeps the ids ascending. */
  lemma {:induction false} UserMessagesAscending(log: seq<MessageRow>, u: string)
    requires Ascending(log)
    ensures Ascending(UserMessages(log, u))
  {
    if log != [] {
      assert Ascending(log[1..]);
      UserMessagesAscending(log[1..], u);
      UserMessagesSound(log[1..], u);
      var rest := UserMessages(log[1..], u);
      forall m | m in rest ensures log[0].id < m.id {
        var j :| 0 <= j < |log[1..]| && log[1..][j] == m;
        assert log[j + 1] == m;
      }
    }
  }

  /** The size of the window: at most `limit` messages (all of them for a
      negative limit), and exactly as many as there are when fewer exist;
      a zero limit yields nothing. */
  lemma WindowSize(log: seq<MessageRow>, u: string, limit: int)
    ensures var n := |UserMessages(log, u)|;
      |RecentContext(log, u, limit)| == if limit < 0 || limit > n then n else limit
    ensures limit == 0 ==> RecentContext(log, u, limit) == []
    ensures limit < 0 ==> RecentContext(log, u, limit) == Entries(UserMessages(log, u))
  {
  }

  /** The window holds the newest messages of `u`, oldest first: its ids
      ascend, every row in it is `u`'s, and every message of `u` left out
      is older than every message in it. */
  lemma WindowIsNewest(log: seq<MessageRow>, u: string, limit: int)
    requires Ascending(log)
    ensures Ascending(Window(log, u, limit))
    ensures forall m :: m in Window(log, u, limit) ==> m in log && m.userId == u
    ensures forall i, j :: (0 <= i < |log| && 0 <= j < |Window(log, u, limit)| &&
      log[i].userId == u && log[i] !in Window(log, u, limit)) ==> log[i].id < Window(log, u, limit)[j].id
  {
    UserMessagesAscending(log, u);
    WindowAscending(log, u, limit);
    WindowSound(log, u, limit);
    LeftOutIsOlder(log, u, limit);
  }

  lemma WindowAscending(log: seq<MessageRow>, u: string, limit: int)
    requires Ascending(UserMessages(log, u))
    ensures Ascending(Window(log, u, limit))
  {
    var mine := UserMessages(log, u);
    var w := Window(log, u, limit);
    var start := |mine| - |w|;
    assert forall q :: 0 <= q < |w| ==> w[q] == mine[start + q];
  }

  lemma WindowSound(log: seq<MessageRow>, u: string, limit: int)
    ensures forall m :: m in Window(log, u, limit) ==> m in log && m.userId == u
  {
    UserMessagesSound(log, u);
  }

  lemma LeftOutIsOlder(log: seq<MessageRow>, u: string, limit: int)
    requires Ascending(UserMessages(log, u))
    ensures forall i, j :: (0 <= i < |log| && 0 <= j < |Window(log, u, limit)| &&
      log[i].userId == u && log[i] !in Window(log, u, limit)) ==> log[i].id < Window(log, u, limit)[j].id
  {
    var mine := UserMessages(log, u);
    var w := Window(log, u, limit);
    var start := |mine| - |w|;
    assert forall q :: start <= q < |mine| ==> mine[q] == w[q - start];
    forall i, j | 0 <= i < |log| && 0 <= j < |w| && log[i].userId == u && log[i] !in w
      ensures log[i].id < w[j].id
    {
      UserMessagesComplete(log, u, i);
      var p :| 0 <= p < |mine| && mine[p] == log[i];
      assert p < start;
      assert mine[start + j] == w[j];
    }
  }

  /** Saving a message of `u` adds it at the end of `u`'s window and drops
      the oldest entry when the window was already full. */
  lemma RecentAfterOwnSave(log: seq<MessageRow>, m: MessageRow, limit: int)
    ensures RecentContext(log + [m], m.userId, limit) ==
      if limit == 0 then []
      else RecentContext(log, m.userId, if limit < 0 then limit else limit - 1)
           + [ContextEntry(m.role, m.message)]
  {
    var u := m.userId;
    var mine := UserMessages(log, u);
    WindowAfterOwnSave(log, m, limit);
    if limit != 0 {
      var w := Window(log, u, if limit < 0 then limit else limit - 1);
      EntriesAppend(w, [m]);
    }
  }

  /** Saving a message of its own user extends a window at its newest end. */
  lemma WindowAfterOwnSave(log: seq<MessageRow>, m: MessageRow, limit: int)
    ensures limit != 0 ==>
      Window(log + [m], m.userId, limit) == Window(log, m.userId, if limit < 0 then limit else limit - 1) + [m]
  {
    var u := m.userId;
    var mine := UserMessages(log, u);
    var all := UserMessages(log + [m], u);
    OwnMessageAppended(log, m);
    if limit < 0 {
      assert Window(log + [m], u, limit) == all;
      assert Window(log, u, limit) == mine;
    } else if limit > 0 {
      var k := if limit > |mine| + 1 then |mine| + 1 else limit;
      assert Window(log + [m], u, limit) == all[|all| - k..];
      assert Window(log, u, limit - 1) == mine[|mine| - (k - 1)..];
      assert all[|all| - k..] == mine[|mine| - (k - 1)..] + [m];
    }
  }

  lemma OwnMessageAppended(log: seq<MessageRow>, m: MessageRow)
    ensures UserMessages(log + [m], m.userId) == UserMessages(log, m.userId) + [m]
  {
    UserMessagesAppend(log, [m], m.userId);
    assert [m][1..] == [];
  }

  /** A log holding only `u`'s messages is all of `u`'s messages. */
  lemma {:induction false} UserMessagesAllOwn(log: seq<MessageRow>, u: string)
    requires forall i :: 0 <= i < |log| ==> log[i].userId == u
    ensures UserMessages(log, u) == log
  {
    if log != [] {
      UserMessagesAllOwn(log[1..], u);
    }
  }

  /** Saving another user's message leaves `u`'s window as it was. */
  lemma RecentAfterOtherSave(log: seq<MessageRow>, m: MessageRow, u: string, limit: int)
    requires m.userId != u
    ensures RecentContext(log + [m], u, limit) == RecentContext(log, u, limit)
  {
    UserMessagesAppend(log, [m], u);
    assert UserMessages([m], u) == [] by {
      assert [m][1..] == [];
    }
    assert UserMessages(log + [m], u) == UserMessages(log, u);
  }

  lemma ReversedTwice<T>(s: seq<T>)
    ensures Reversed(Reversed(s)) == s
  {
  }

  lemma ReversedAppend<T>(a: seq<T>, b: seq<T>)
    ensures Reversed(a + b) == Reversed(b) + Reversed(a)
  {
  }

  /** One step of the newest-first scan: looking at row `i - 1` puts it at
      the end of the rows found so far when it is `u`'s. */
  lemma ScanStep(log: seq<MessageRow>, i: nat, u: string)
    requires 0 < i <= |log|
    ensures Reversed(UserMessages(log[i - 1..], u)) ==
      Reversed(UserMessages(log[i..], u)) + (if log[i - 1].userId == u then [log[i - 1]] else [])
  {
    assert log[i - 1..][1..] == log[i..];
    var head := if log[i - 1].userId == u then [log[i - 1]] else [];
    assert UserMessages(log[i - 1..], u) == head + UserMessages(log[i..], u);
    ReversedAppend(head, UserMessages(log[i..], u));
  }

  /** When the scan stops (at the start of the log, or with `limit` rows in
      hand) the rows it found, turned around, are the window. */
  lemma ScanWindow(log: seq<MessageRow>, u: string, limit: int, i: nat, rows: seq<MessageRow>)
    requires i <= |log|
    requires rows == Reversed(UserMessages(log[i..], u))
    requires limit >= 0 ==> |rows| <= limit
    requires !(i > 0 && (limit < 0 || |rows| < limit))
    ensures Reversed(rows) == Window(log, u, limit)
  {
    var tail := UserMessages(log[i..], u);
    ReversedTwice(tail);
    assert log == log[..i] + log[i..];
    UserMessagesAppend(log[..i], log[i..], u);
    var mine := UserMessages(log, u);
    assert mine == UserMessages(log[..i], u) + tail;
    if i == 0 {
      assert log[..i] == [];
      assert mine == tail;
    } else {
      assert |tail| == limit;
      assert mine[|mine| - limit..] == tail;
    }
  }

  /** Reverses the row list in place (`rows.reverse()`). */
  method ReverseRows(a: array<MessageRow>)
    modifies a
    ensures a[..] == Reversed(old(a[..]))
  {
    var n := a.Length;
    var i := 0;
    while i < n / 2
      invariant 0 <= i <= n / 2
      invariant forall k :: 0 <= k < i ==> a[k] == old(a[n - 1 - k]) && a[n - 1 - k] == old(a[k])
      invariant forall k :: i <= k < n - i ==> a[k] == old(a[k])
    {
      a[i], a[n - 1 - i] := a[n - 1 - i], a[i];
      i := i + 1;
    }
  }

  // ---------------------------------------------------------------------------

  /** The database file `memory.db`, with its three tables. */
  class MemoryStore {
    /** Whether `init_db` has created the tables; before that every other
        operation fails in SQLite with "no such table". */
    var tablesCreated: bool
    var users: seq<UserRow>
    var conversation: seq<MessageRow>
    var sessions: seq<SessionRow>
    /** The AUTOINCREMENT counters: the id the next inserted row receives. */
    var nextUserRowId: nat
    var nextMessageId: nat
    var nextSessionId: nat

    ghost predicate Valid()
      reads this
    {
      (!tablesCreated ==> users == [] && conversation == [] && sessions == [])
      && UsersTableOk(users, nextUserRowId)
      && ConversationTableOk(conversation, nextMessageId)
      && SessionsTableOk(sessions, nextSessionId)
    }

    /** A database file in which no table exists yet. */
    constructor ()
      ensures Valid() && !tablesCreated
      ensures users == [] && conversation == [] && sessions == []
      ensures nextUserRowId == 1 && nextMessageId == 1 && nextSessionId == 1
    {
      tablesCreated := false;
      users, conversation, sessions := [], [], [];
      nextUserRowId, nextMessageId, nextSessionId := 1, 1, 1;
    }

    /** `init_db`: `CREATE TABLE IF NOT EXISTS` for the three tables. It
        changes no row, and on a store whose tables exist it changes nothing. */
    method InitDb()
      requires Valid()
      modifies this`tablesCreated
      ensures Valid() && tablesCreated
      ensures old(tablesCreated) ==> unchanged(this)
    {
      tablesCreated := true;
    }

    /** `get_user_profile`: the profile stored for `userId`, or None. */
    function GetUserProfile(userId: string): (p: Option<Profile>)
      reads this
      requires Valid()
      ensures p.None? <==> forall i :: 0 <= i < |users| ==> users[i].userId != userId
      ensures forall i :: 0 <= i < |users| && users[i].userId == userId ==> p == Some(ProfileOf(users[i]))
    {
      var r := FindUser(users, userId);
      assert forall i :: 0 <= i < |users| && users[i].userId == userId ==> r == Some(users[i]) by {
        forall i | 0 <= i < |users| && users[i].userId == userId ensures r == Some(users[i]) {
          FindUserUnique(users, nextUserRowId, userId, i);
        }
      }
      if r.Some? then Some(ProfileOf(r.value)) else None
    }

    /** `create_user_profile` (`INSERT OR IGNORE`): a user that exists keeps
        its row untouched; otherwise one row is appended with the given
        values and `created_at = now`. Either way the user exists afterwards
        exactly once. SQLite draws the new row's id before the UNIQUE check,
        so an ignored insert still advances the AUTOINCREMENT counter. */
    method CreateUserProfile(userId: string, name: string, language: string, tone: string, now: Timestamp)
      requires Valid() && tablesCreated
      modifies this`users, this`nextUserRowId
      ensures Valid()
      ensures nextUserRowId == old(nextUserRowId) + 1
      ensures FindUser(old(users), userId).Some? ==> users == old(users)
      ensures FindUser(old(users), userId).None? ==>
        users == old(users) + [UserRow(old(nextUserRowId), userId, name, language, tone, now)]
      ensures GetUserProfile(userId) ==
        if old(GetUserProfile(userId)).Some? then old(GetUserProfile(userId)) else Some(Profile(name, language, tone))
    {
      if FindUser(users, userId).None? {
        var row := UserRow(nextUserRowId, userId, name, language, tone, now);
        InsertNewUser(users, nextUserRowId, row);
        users := users + [row];
        assert users[|users| - 1] == row;
      }
      nextUserRowId := nextUserRowId + 1;
    }

    /** `update_user_preferences`: on the rows of `userId`, sets
        `preferred_language` if `language` is truthy and `voice_tone` if
        `tone` is truthy; nothing else changes, and an unknown user changes
        nothing. */
    method UpdateUserPreferences(userId: string, language: Option<string>, tone: Option<string>)
      requires Valid() && tablesCreated
      modifies this`users
      ensures Valid()
      ensures users == ApplyPreferences(old(users), userId, language, tone)
      ensures (FindUser(old(users), userId).None? || (!Truthy(language) && !Truthy(tone))) ==> users == old(users)
      ensures FindUser(users, userId) ==
        match FindUser(old(users), userId)
        case None => None
        case Some(row) => Some(WithPreferences(row, language, tone))
    {
      ApplyPreferencesKeepsTable(users, nextUserRowId, userId, language, tone);
      FindUserAfterUpdate(users, ApplyPreferences(users, userId, language, tone), userId, language, tone);
      if FindUser(users, userId).None? || (!Truthy(language) && !Truthy(tone)) {
        ApplyPreferencesNoop(users, userId, language, tone);
      }
      if Truthy(language) {
        users := SetLanguageWhere(users, userId, language.value);
      }
      if Truthy(tone) {
        users := SetToneWhere(users, userId, tone.value);
      }
    }

    /** `start_session`: appends one open session of `userId` started at
        `now`; a second open session of the same user is not refused. */
    method StartSession(userId: string, now: Timestamp)
      requires Valid() && tablesCreated
      modifies this`sessions, this`nextSessionId
      ensures Valid()
      ensures sessions == old(sessions) + [SessionRow(old(nextSessionId), userId, now, None)]
      ensures nextSessionId == old(nextSessionId) + 1
      ensures HasOpenSession(sessions, userId)
    {
      var rows := sessions + [SessionRow(nextSessionId, userId, now, None)];
      assert forall i :: 0 <= i < |sessions| ==> rows[i] == sessions[i];
      assert SessionsTableOk(rows, nextSessionId + 1);
      sessions := rows;
      nextSessionId := nextSessionId + 1;
      assert sessions[|sessions| - 1].userId == userId;
    }

    /** `end_session`: stamps `session_end = now` on EVERY open session of
        `userId`; closed sessions and other users' sessions are untouched.
        Afterwards the user has no open session. */
    method EndSession(userId: string, now: Timestamp)
      requires Valid() && tablesCreated
      modifies this`sessions
      ensures Valid()
      ensures sessions == CloseSessionsWhere(old(sessions), userId, now)
      ensures !HasOpenSession(sessions, userId)
    {
      CloseSessionsKeepsTable(sessions, userId, now, nextSessionId);
      sessions := CloseSessionsWhere(sessions, userId, now);
    }

    /** `save_message`: appends one message whose id is greater than every
        id already in the log; earlier messages are unchanged, and sessions
        play no part. */
    method SaveMessage(userId: string, role: string, message: string, now: Timestamp)
      requires Valid() && tablesCreated
      modifies this`conversation, this`nextMessageId
      ensures Valid()
      ensures conversation == old(conversation) + [MessageRow(old(nextMessageId), userId, role, message, now)]
      ensures forall i :: 0 <= i < |old(conversation)| ==> old(conversation)[i].id < old(nextMessageId)
      ensures nextMessageId == old(nextMessageId) + 1
    {
      var log := conversation + [MessageRow(nextMessageId, userId, role, message, now)];
      assert forall i :: 0 <= i < |conversation| ==> log[i] == conversation[i];
      assert ConversationTableOk(log, nextMessageId + 1);
      conversation := log;
      nextMessageId := nextMessageId + 1;
    }

    /** `get_recent_context`: the newest `limit` messages of `userId` (all of
        them for a negative limit), oldest first. Reads only. The rows are
        collected newest first, as the descending query yields them, and
        then reversed in place. */
    method GetRecentContext(userId: string, limit: int) returns (ctx: seq<ContextEntry>)
      ensures ctx == RecentContext(conversation, userId, limit)
    {
      var log := conversation;
      var rows: seq<MessageRow> := [];
      var i := |log|;
      while i > 0 && (limit < 0 || |rows| < limit)
        invariant 0 <= i <= |log|
        invariant rows == Reversed(UserMessages(log[i..], userId))
        invariant limit >= 0 ==> |rows| <= limit
      {
        ScanStep(log, i, userId);
        i := i - 1;
        if log[i].userId == userId {
          rows := rows + [log[i]];
        }
      }
      var buf := new MessageRow[|rows|](k requires 0 <= k < |rows| => rows[k]);
      assert buf[..] == rows;
      ReverseRows(buf);
      ScanWindow(log, userId, limit, i, rows);
      ctx := Entries(buf[..]);
    }
  }
}
