/**
  The command interpreter of `whatsapp_bot`: one incoming message from one
  phone is one transition of the in-memory (sessions, entries) state, and it
  produces one reply.
 */
module Interpreter {
  import opened Wrappers
  import opened Text
  import opened Numerals
  import opened Validators
  import opened EntryStore
  import opened SessionStore

  // ---------------------------------------------------------------- command words

  const HelpWord: string := "עזרה"     // help
  const SelectWord: string := "בחר"    // select
  const CreateWord: string := "צור"    // create
  const DiaryWord: string := "יומן"    // diary
  const DateWord: string := "תאריך"    // date
  const ViewWord: string := "צפה"      // view
  const ShowWord: string := "הצג"      // show
  const AddWord: string := "הוסף"      // add
  const RemoveWord: string := "הסר"    // remove
  const EditWord: string := "ערוך"     // edit

  /** The rows of the dispatch table, each with the tokens it takes apart. */
  datatype Command =
    | Blank
    | ShowHelp
    | SelectDiary(words: seq<string>)
    | CreateDiary(words: seq<string>)
    | SelectDate(token: string)
    | View
    | Add(args: seq<string>)
    | Remove(arg: string)
    | Edit(arg: string, words: seq<string>)
    | Unrecognised

  /** The replies, one per message text of the bot (the Hebrew texts themselves are not modelled). */
  datatype Reply =
    | NoInput
    | HelpText
    | DiarySelected(diary: string, date: string)
    | DiaryCreated(diary: string, date: string)
    | BadDate
    | DateSelected(date: string, diary: string)
    | NoEntries(date: string)
    | Listing(diary: string, date: string, lines: seq<string>)
    | ContentRequired
    | Added(date: string)
    | Removed
    | Edited
    | InvalidIndex
    | BadNumber
    | UnknownCommand

  /** Everything the bot stores: the `users` and the `entries` tables. */
  datatype State = State(sessions: Sessions, store: Store)

  const InitialState := State(map[], EmptyStore)

  lemma CommandWordsHaveNoLatinLetters()
    ensures NoAsciiLetter(HelpWord) && NoAsciiLetter(SelectWord) && NoAsciiLetter(CreateWord)
    ensures NoAsciiLetter(ViewWord) && NoAsciiLetter(ShowWord) && NoAsciiLetter(AddWord)
    ensures NoAsciiLetter(RemoveWord) && NoAsciiLetter(EditWord)
  {
  }

  lemma CommandWordsAreTokens()
    ensures IsToken(HelpWord) && IsToken(SelectWord) && IsToken(CreateWord) && IsToken(DiaryWord)
    ensures IsToken(DateWord) && IsToken(ViewWord) && IsToken(ShowWord) && IsToken(AddWord)
    ensures IsToken(RemoveWord) && IsToken(EditWord)
  {
  }

  /**
    The first-match dispatch on `tokens[0].lower()`. Because the command words
    have no Latin letters, `lower()` matches a word only when typed exactly, and
    because the guards are pairwise exclusive, each row is taken exactly when
    its own guard holds: the order of the table shadows no row.
   */
  function Classify(tokens: seq<string>): (c: Command)
    ensures c.Blank? <==> |tokens| == 0
    ensures c.ShowHelp? <==> |tokens| > 0 && tokens[0] == HelpWord
    ensures c.SelectDiary? <==> |tokens| >= 3 && tokens[0] == SelectWord && tokens[1] == DiaryWord
    ensures c.CreateDiary? <==> |tokens| >= 3 && tokens[0] == CreateWord && tokens[1] == DiaryWord
    ensures c.SelectDate? <==> |tokens| >= 3 && tokens[0] == SelectWord && tokens[1] == DateWord
    ensures c.View? <==> |tokens| > 0 && (tokens[0] == ViewWord || tokens[0] == ShowWord)
    ensures c.Add? <==> |tokens| >= 2 && tokens[0] == AddWord
    ensures c.Remove? <==> |tokens| == 2 && tokens[0] == RemoveWord
    ensures c.Edit? <==> |tokens| >= 3 && tokens[0] == EditWord
    ensures (c.SelectDiary? || c.CreateDiary?) ==> c.words == tokens[2..]
    ensures c.SelectDate? ==> c.token == tokens[2]
    ensures c.Add? ==> c.args == tokens[1..]
    ensures c.Remove? ==> c.arg == tokens[1]
    ensures c.Edit? ==> c.arg == tokens[1] && c.words == tokens[2..]
  {
    if |tokens| == 0 then Blank
    else
      var command := Lower(tokens[0]);
      CommandWordsHaveNoLatinLetters();
      LowerMatchesExactly(HelpWord, tokens[0]);
      LowerMatchesExactly(SelectWord, tokens[0]);
      LowerMatchesExactly(CreateWord, tokens[0]);
      LowerMatchesExactly(ViewWord, tokens[0]);
      LowerMatchesExactly(ShowWord, tokens[0]);
      LowerMatchesExactly(AddWord, tokens[0]);
      LowerMatchesExactly(RemoveWord, tokens[0]);
      LowerMatchesExactly(EditWord, tokens[0]);
      if command == HelpWord then ShowHelp
      else if command == SelectWord && |tokens| >= 3 && tokens[1] == DiaryWord then SelectDiary(tokens[2..])
      else if command == CreateWord && |tokens| >= 3 && tokens[1] == DiaryWord then CreateDiary(tokens[2..])
      else if command == SelectWord && |tokens| >= 3 && tokens[1] == DateWord then SelectDate(tokens[2])
      else if command == ViewWord || command == ShowWord then View
      else if command == AddWord && |tokens| >= 2 then Add(tokens[1..])
      else if command == RemoveWord && |tokens| == 2 then Remove(tokens[1])
      else if command == EditWord && |tokens| >= 3 then Edit(tokens[1], tokens[2..])
      else Unrecognised
  }

  /** What the bot dispatches on: `incoming_msg.strip().split()`. */
  function MessageTokens(text: string): (ts: seq<string>)
    ensures AllTokens(ts)
    ensures |ts| == 0 <==> forall i :: 0 <= i < |text| ==> IsSpace(text[i])
  {
    Tokenize(Strip(text))
  }

  /** A message typed as tokens separated by single spaces is dispatched on exactly those tokens. */
  lemma MessageTokensOfJoined(ts: seq<string>)
    requires AllTokens(ts)
    ensures MessageTokens(JoinSpace(ts)) == ts
  {
    StripJoinedTokens(ts);
    TokenizeJoin(ts);
  }

  // ---------------------------------------------------------------- stored rows

  /** What every stored row satisfies: a valid time if any, and stripped non-empty content. */
  predicate GoodEntry(e: Entry) {
    && (e.time.Some? ==> IsValidTime(e.time.value))
    && |e.content| > 0 && !IsSpace(e.content[0]) && !IsSpace(e.content[|e.content| - 1])
  }

  predicate StoreInv(store: Store) {
    && WellKeyed(store)
    && forall i :: 0 <= i < |store.entries| ==> GoodEntry(store.entries[i])
  }

  predicate Inv(st: State) {
    StoreInv(st.store)
  }

  // ---------------------------------------------------------------- view

  /** `f"{idx}. {time_str} - {content}"`, where a missing (or empty) time prints as nothing. */
  function NumberedLine(n: nat, e: Entry): string {
    var time := if e.time.Some? && e.time.value != "" then e.time.value else "";
    NatToString(n) + ". " + time + " - " + e.content
  }

  /** The view/show branch: the listing of the session's diary and date, numbered from 1 in display order. */
  function ViewCommand(store: Store, key: Key): (r: Reply)
    ensures |DisplayList(store, key)| == 0 <==> r == NoEntries(key.date)
    ensures r.NoEntries? || r.Listing?
    ensures r.Listing? ==> r.diary == key.diary && r.date == key.date
    ensures r.Listing? ==> |r.lines| == |DisplayList(store, key)|
    ensures r.Listing? ==> forall k :: 0 <= k < |r.lines| ==> r.lines[k] == NumberedLine(k + 1, DisplayList(store, key)[k])
  {
    var list := DisplayList(store, key);
    if |list| == 0 then NoEntries(key.date)
    else Listing(key.diary, key.date, seq(|list|, k requires 0 <= k < |list| => NumberedLine(k + 1, list[k])))
  }

  /** With the invariant, the numbered lines that carry a time are in clock order. */
  lemma ViewIsChronological(st: State, key: Key)
    requires Inv(st)
    ensures var list := DisplayList(st.store, key);
      forall i, j :: 0 <= i < j < |list| && list[i].time.Some? && list[j].time.Some? ==>
        IsValidTime(list[i].time.value) && IsValidTime(list[j].time.value) &&
        MinuteOfDay(list[i].time.value) <= MinuteOfDay(list[j].time.value)
  {
    var list := DisplayList(st.store, key);
    DisplayOrder(st.store, key);
    forall i, j | 0 <= i < j < |list| && list[i].time.Some? && list[j].time.Some?
      ensures IsValidTime(list[i].time.value) && IsValidTime(list[j].time.value)
      ensures MinuteOfDay(list[i].time.value) <= MinuteOfDay(list[j].time.value)
    {
      assert list[i] in st.store.entries && list[j] in st.store.entries;
      TimeOrderIsChronological(list[j].time.value, list[i].time.value);
    }
  }

  // ---------------------------------------------------------------- add

  /** Tokens joined by spaces are content a stored row may hold. */
  lemma JoinedWordsAreGood(e: Entry, words: seq<string>)
    requires |words| >= 1 && AllTokens(words)
    requires e.content == JoinSpace(words) && (e.time.Some? ==> IsValidTime(e.time.value))
    ensures GoodEntry(e)
  {
    StripJoinedTokens(words);
  }

  /**
    The add branch on the tokens after the command word: a leading valid time
    becomes the row's time and the rest its content; otherwise every token is
    content. Only a time with nothing after it is refused.
   */
  function AddCommand(store: Store, key: Key, args: seq<string>): (r: (Store, Reply))
    requires |args| >= 1 && AllTokens(args)
    ensures r.1 == ContentRequired <==> IsValidTime(args[0]) && |args| == 1
    ensures r.1 == ContentRequired ==> r.0 == store
    ensures r.1 != ContentRequired ==>
      && r.1 == Added(key.date)
      && |r.0.entries| == |store.entries| + 1
      && r.0.entries[..|store.entries|] == store.entries
      && r.0.entries[|store.entries|].key == key
      && GoodEntry(r.0.entries[|store.entries|])
    ensures r.1.Added? && IsValidTime(args[0]) ==>
      r.0.entries[|store.entries|].time == Some(args[0]) && r.0.entries[|store.entries|].content == JoinSpace(args[1..])
    ensures r.1.Added? && !IsValidTime(args[0]) ==>
      r.0.entries[|store.entries|].time == None && r.0.entries[|store.entries|].content == JoinSpace(args)
    ensures WellKeyed(store) ==> WellKeyed(r.0)
  {
    var rest := args[1..];
    assert AllTokens(rest) by {
      assert forall i :: 0 <= i < |rest| ==> rest[i] == args[i + 1];
    }
    StripJoinedTokens(args);
    StripJoinedTokens(rest);
    if IsValidTime(args[0]) then
      var content := Strip(JoinSpace(rest));
      if content == "" then (store, ContentRequired)
      else
        var after := AddEntry(store, key, Some(args[0]), content);
        JoinedWordsAreGood(after.entries[|store.entries|], rest);
        (after, Added(key.date))
    else
      var after := AddEntry(store, key, None, Strip(JoinSpace(args)));
      JoinedWordsAreGood(after.entries[|store.entries|], args);
      (after, Added(key.date))
  }

  // ---------------------------------------------------------------- remove and edit

  /** `delete_entry_by_index` with the number read, mapped to its reply. */
  function RemoveNumber(store: Store, key: Key, i: int): (r: (Store, Reply))
    ensures r.1 == Removed <==> 1 <= i <= |DisplayList(store, key)|
    ensures r.1 != Removed ==> r == (store, InvalidIndex)
    ensures WellKeyed(store) && r.1 == Removed ==>
      var list := DisplayList(store, key);
      && DisplayList(r.0, key) == list[..i - 1] + list[i..]
      && multiset(r.0.entries) == multiset(store.entries) - multiset{list[i - 1]}
      && WellKeyed(r.0)
  {
    var (after, ok) := DeleteByIndex(store, key, i);
    if ok && WellKeyed(store) then
      DeleteByIndexListings(store, key, i);
      DeleteByIndexTable(store, key, i);
      (after, Removed)
    else (after, if ok then Removed else InvalidIndex)
  }

  /** The remove branch: `int(token)` then `delete_entry_by_index`, relaying its outcome. */
  function RemoveCommand(store: Store, key: Key, arg: string): (r: (Store, Reply))
    ensures ParseInt(arg).None? ==> r == (store, BadNumber)
    ensures ParseInt(arg).Some? ==>
      (r.1 == Removed <==> 1 <= ParseInt(arg).value <= |DisplayList(store, key)|)
    ensures r.1 != Removed ==> r.0 == store
    ensures r.1 == Removed || r.1 == InvalidIndex || r.1 == BadNumber
    ensures r.1 == BadNumber <==> ParseInt(arg).None?
    ensures WellKeyed(store) && r.1 == Removed ==>
      var list := DisplayList(store, key);
      var i := ParseInt(arg).value;
      && DisplayList(r.0, key) == list[..i - 1] + list[i..]
      && multiset(r.0.entries) == multiset(store.entries) - multiset{list[i - 1]}
      && WellKeyed(r.0)
  {
    match ParseInt(arg)
    case None => (store, BadNumber)
    case Some(i) => RemoveNumber(store, key, i)
  }

  /** What the edit reply relies on from `EditByIndexListings` and `EditByIndexTable`. */
  lemma EditedListing(store: Store, key: Key, i: int, content: string)
    requires WellKeyed(store) && 1 <= i <= |DisplayList(store, key)|
    ensures var list := DisplayList(store, key);
      var r := EditByIndex(store, key, i, content).0;
      && DisplayList(r, key) == list[i - 1 := list[i - 1].(content := content)]
      && (forall k :: k != key ==> DisplayList(r, k) == DisplayList(store, k))
      && RewritesOnly(store.entries, r.entries, list[i - 1], content)
      && |r.entries| == |store.entries|
      && WellKeyed(r)
  {
    var target := DisplayList(store, key)[i - 1];
    var r := EditByIndex(store, key, i, content).0;
    EditByIndexListings(store, key, i, content);
    EditByIndexTable(store, key, i, content);
    EditByIndexWellKeyed(store, key, i, content);
    forall j | 0 <= j < |store.entries|
      ensures r.entries[j] == if store.entries[j] == target then store.entries[j].(content := content) else store.entries[j]
    {
    }
  }

  /** `edit_entry_by_index` with the number read and the words joined as content, mapped to its reply. */
  function EditNumber(store: Store, key: Key, i: int, words: seq<string>): (r: (Store, Reply))
    requires |words| >= 1 && AllTokens(words)
    ensures r.1 == Edited <==> 1 <= i <= |DisplayList(store, key)|
    ensures r.1 != Edited ==> r == (store, InvalidIndex)
    ensures WellKeyed(store) && r.1 == Edited ==>
      var list := DisplayList(store, key);
      && DisplayList(r.0, key) == list[i - 1 := list[i - 1].(content := JoinSpace(words))]
      && (forall k :: k != key ==> DisplayList(r.0, k) == DisplayList(store, k))
      && RewritesOnly(store.entries, r.0.entries, list[i - 1], JoinSpace(words))
      && |r.0.entries| == |store.entries|
      && WellKeyed(r.0)
  {
    StripJoinedTokens(words);
    var content := Strip(JoinSpace(words));
    var (after, ok) := EditByIndex(store, key, i, content);
    if ok && WellKeyed(store) then
      EditedListing(store, key, i, content);
      (after, Edited)
    else (after, if ok then Edited else InvalidIndex)
  }

  /** The edit branch: `int(token)`, the remaining tokens joined as new content, then `edit_entry_by_index`. */
  function EditCommand(store: Store, key: Key, arg: string, words: seq<string>): (r: (Store, Reply))
    requires |words| >= 1 && AllTokens(words)
    ensures ParseInt(arg).None? ==> r == (store, BadNumber)
    ensures ParseInt(arg).Some? ==>
      (r.1 == Edited <==> 1 <= ParseInt(arg).value <= |DisplayList(store, key)|)
    ensures r.1 != Edited ==> r.0 == store
    ensures r.1 == Edited || r.1 == InvalidIndex || r.1 == BadNumber
    ensures r.1 == BadNumber <==> ParseInt(arg).None?
    ensures WellKeyed(store) && r.1 == Edited ==>
      var list := DisplayList(store, key);
      var i := ParseInt(arg).value;
      && DisplayList(r.0, key) == list[i - 1 := list[i - 1].(content := JoinSpace(words))]
      && (forall k :: k != key ==> DisplayList(r.0, k) == DisplayList(store, k))
      && RewritesOnly(store.entries, r.0.entries, list[i - 1], JoinSpace(words))
      && |r.0.entries| == |store.entries|
      && WellKeyed(r.0)
  {
    var n := ParseInt(arg);
    if n.None? then (store, BadNumber) else EditNumber(store, key, n.value, words)
  }

  // ---------------------------------------------------------------- one message

  /** What the branches need of their tokens, which `Classify` guarantees for split tokens. */
  predicate WellFormed(c: Command) {
    && (c.Add? ==> |c.args| >= 1 && AllTokens(c.args))
    && (c.Edit? ==> |c.words| >= 1 && AllTokens(c.words))
  }

  lemma ClassifyWellFormed(tokens: seq<string>)
    requires AllTokens(tokens)
    ensures WellFormed(Classify(tokens))
  {
    var c := Classify(tokens);
    if c.Add? {
      assert forall i :: 0 <= i < |c.args| ==> c.args[i] == tokens[i + 1];
    } else if c.Edit? {
      assert forall i :: 0 <= i < |c.words| ==> c.words[i] == tokens[i + 2];
    }
  }

  /**
    The body of `whatsapp_bot` once the command is known: the sender's context
    is fetched (and created on first contact) before anything else, and its
    diary and date key every entry command. Other senders' sessions are never
    touched; the sender's own session changes beyond its creation only with a
    diary or date reply, and the entries change only with an add, remove or
    edit reply.
   */
  function Dispatch(st: State, phone: string, env: Env, c: Command): (r: (State, Reply))
    requires WellFormed(c)
    ensures phone in r.0.sessions && r.0.sessions.Keys == st.sessions.Keys + {phone}
    ensures forall p :: p in st.sessions && p != phone ==> r.0.sessions[p] == st.sessions[p]
    ensures r.0.sessions != GetContext(st.sessions, phone, env).0 ==>
      r.1.DiarySelected? || r.1.DiaryCreated? || r.1.DateSelected?
    ensures r.0.store != st.store ==> r.1.Added? || r.1 == Removed || r.1 == Edited
  {
    var (created, ctx) := GetContext(st.sessions, phone, env);
    var key := Key(phone, ctx.diary, ctx.date);
    match c
    case Blank => (State(created, st.store), NoInput)
    case ShowHelp => (State(created, st.store), HelpText)
    case SelectDiary(words) =>
      var name := JoinSpace(words);
      (State(UpdateDiary(created, phone, name, env), st.store), DiarySelected(name, ctx.date))
    case CreateDiary(words) =>
      var name := JoinSpace(words);
      (State(UpdateDiary(created, phone, name, env), st.store), DiaryCreated(name, ctx.date))
    case SelectDate(token) =>
      if IsValidDate(token) then
        (State(UpdateDate(created, phone, token, env), st.store), DateSelected(token, ctx.diary))
      else (State(created, st.store), BadDate)
    case View => (State(created, st.store), ViewCommand(st.store, key))
    case Add(args) =>
      var (store, reply) := AddCommand(st.store, key, args);
      (State(created, store), reply)
    case Remove(arg) =>
      var (store, reply) := RemoveCommand(st.store, key, arg);
      (State(created, store), reply)
    case Edit(arg, words) =>
      var (store, reply) := EditCommand(st.store, key, arg, words);
      (State(created, store), reply)
    case Unrecognised => (State(created, st.store), UnknownCommand)
  }

  /** `whatsapp_bot` on one message from `phone`, in the environment `env` (the two clocks and how the date is read). */
  function Step(st: State, phone: string, text: string, env: Env): (r: (State, Reply))
    ensures phone in r.0.sessions && r.0.sessions.Keys == st.sessions.Keys + {phone}
    ensures forall p :: p in st.sessions && p != phone ==> r.0.sessions[p] == st.sessions[p]
    ensures r.0.sessions != GetContext(st.sessions, phone, env).0 ==>
      r.1.DiarySelected? || r.1.DiaryCreated? || r.1.DateSelected?
    ensures r.0.store != st.store ==> r.1.Added? || r.1 == Removed || r.1 == Edited
    ensures r.1 == NoInput <==> forall i :: 0 <= i < |text| ==> IsSpace(text[i])
  {
    var tokens := MessageTokens(text);
    ClassifyWellFormed(tokens);
    var c := Classify(tokens);
    DispatchNoInput(st, phone, env, c);
    Dispatch(st, phone, env, c)
  }

  /** A message typed as tokens with single spaces is dispatched on exactly those tokens. */
  lemma StepOnTokens(st: State, phone: string, words: seq<string>, env: Env)
    requires AllTokens(words)
    ensures WellFormed(Classify(words))
    ensures Step(st, phone, JoinSpace(words), env) == Dispatch(st, phone, env, Classify(words))
  {
    ClassifyWellFormed(words);
    MessageTokensOfJoined(words);
  }

  /**
    Which commands move the session: selecting or creating a diary sets the
    diary and writes back the date the context query returned (the stored date
    when the column is read, SQLite's date as written), selecting a valid date
    sets the date verbatim and keeps the diary, and an invalid date changes
    nothing and says so.
   */
  lemma DispatchSessionEffect(st: State, phone: string, env: Env, c: Command)
    requires WellFormed(c)
    ensures var (created, ctx) := GetContext(st.sessions, phone, env);
      var r := Dispatch(st, phone, env, c);
      && (r.0.sessions != created ==> c.SelectDiary? || c.CreateDiary? || (c.SelectDate? && IsValidDate(c.token)))
      && ((r.1.DiarySelected? || r.1.DiaryCreated?) ==> r.0.sessions[phone].diary == r.1.diary)
      && ((r.1.DiarySelected? || r.1.DiaryCreated?) && env.dateRead == StoredColumn ==> r.0.sessions[phone].date == ctx.date)
      && ((r.1.DiarySelected? || r.1.DiaryCreated?) && AsWritten(env) ==> r.0.sessions[phone].date == IsoDate(env.dateRead.utc))
      && ((c.SelectDiary? || c.CreateDiary?) ==> r.0.sessions[phone].diary == JoinSpace(c.words))
      && (c.SelectDate? ==> (r.1.DateSelected? <==> IsValidDate(c.token)))
      && (c.SelectDate? && IsValidDate(c.token) ==> r.0.sessions[phone] == Session(ctx.diary, c.token))
      && (c.SelectDate? && !IsValidDate(c.token) ==> r == (State(created, st.store), BadDate))
  {
    if c.Add? || c.Remove? || c.Edit? || c.View? {
      EntryCommandsKeepSession(st, phone, env, c);
    }
  }

  /** The commands on entries leave the sessions as the context query left them, and reply with no session change. */
  lemma EntryCommandsKeepSession(st: State, phone: string, env: Env, c: Command)
    requires WellFormed(c) && (c.Add? || c.Remove? || c.Edit? || c.View?)
    ensures var r := Dispatch(st, phone, env, c);
      && r.0.sessions == GetContext(st.sessions, phone, env).0
      && !r.1.DiarySelected? && !r.1.DiaryCreated? && !r.1.DateSelected?
  {
    var (created, ctx) := GetContext(st.sessions, phone, env);
    var key := Key(phone, ctx.diary, ctx.date);
    match c
    case Add(args) =>
      assert Dispatch(st, phone, env, c) == (State(created, AddCommand(st.store, key, args).0), AddCommand(st.store, key, args).1);
    case Remove(arg) =>
      assert Dispatch(st, phone, env, c) == (State(created, RemoveCommand(st.store, key, arg).0), RemoveCommand(st.store, key, arg).1);
    case Edit(arg, words) =>
      assert Dispatch(st, phone, env, c) == (State(created, EditCommand(st.store, key, arg, words).0), EditCommand(st.store, key, arg, words).1);
    case View =>
      assert Dispatch(st, phone, env, c) == (State(created, st.store), ViewCommand(st.store, key));
  }

  /**
    The reply of every command that does not touch the entries: the texts
    interpolate the context's date for a diary change and its diary for a date
    change.
   */
  lemma DispatchReplies(st: State, phone: string, env: Env, c: Command)
    requires WellFormed(c)
    ensures var (created, ctx) := GetContext(st.sessions, phone, env);
      var r := Dispatch(st, phone, env, c);
      && (c.Blank? ==> r.1 == NoInput)
      && (c.ShowHelp? ==> r.1 == HelpText)
      && (c.SelectDiary? ==> r.1 == DiarySelected(JoinSpace(c.words), ctx.date))
      && (c.CreateDiary? ==> r.1 == DiaryCreated(JoinSpace(c.words), ctx.date))
      && (c.SelectDate? && IsValidDate(c.token) ==> r.1 == DateSelected(c.token, ctx.diary))
      && (c.SelectDate? && !IsValidDate(c.token) ==> r.1 == BadDate)
      && (c.Unrecognised? ==> r.1 == UnknownCommand)
  {
  }

  /** Which commands move the entries: only add, remove and edit, each through its own branch. */
  lemma DispatchStoreEffect(st: State, phone: string, env: Env, c: Command)
    requires WellFormed(c)
    ensures var (created, ctx) := GetContext(st.sessions, phone, env);
      var key := Key(phone, ctx.diary, ctx.date);
      var r := Dispatch(st, phone, env, c);
      && (!(c.Add? || c.Remove? || c.Edit?) ==> r.0.store == st.store)
      && (c.Add? ==> (r.0.store, r.1) == AddCommand(st.store, key, c.args))
      && (c.Remove? ==> (r.0.store, r.1) == RemoveCommand(st.store, key, c.arg))
      && (c.Edit? ==> (r.0.store, r.1) == EditCommand(st.store, key, c.arg, c.words))
      && (c.View? ==> r.1 == ViewCommand(st.store, key))
  {
  }

  /** Only an empty message gets the "no input" reply. */
  lemma DispatchNoInput(st: State, phone: string, env: Env, c: Command)
    requires WellFormed(c)
    ensures c.Blank? <==> Dispatch(st, phone, env, c).1 == NoInput
  {
    var (created, ctx) := GetContext(st.sessions, phone, env);
    var key := Key(phone, ctx.diary, ctx.date);
    match c
    case Add(args) =>
      assert Dispatch(st, phone, env, c).1 == AddCommand(st.store, key, args).1;
    case Remove(arg) =>
      assert Dispatch(st, phone, env, c).1 == RemoveCommand(st.store, key, arg).1;
    case Edit(arg, words) =>
      assert Dispatch(st, phone, env, c).1 == EditCommand(st.store, key, arg, words).1;
    case View =>
      assert Dispatch(st, phone, env, c).1 == ViewCommand(st.store, key);
    case _ =>
  }

  lemma AddPreservesInv(store: Store, key: Key, args: seq<string>)
    requires StoreInv(store) && |args| >= 1 && AllTokens(args)
    ensures StoreInv(AddCommand(store, key, args).0)
  {
    var r := AddCommand(store, key, args).0;
    forall i | 0 <= i < |r.entries|
      ensures GoodEntry(r.entries[i])
    {
      if i < |store.entries| {
        assert r.entries[i] == r.entries[..|store.entries|][i];
      }
    }
  }

  lemma RemovePreservesInv(store: Store, key: Key, arg: string)
    requires StoreInv(store)
    ensures StoreInv(RemoveCommand(store, key, arg).0)
  {
    var (r, reply) := RemoveCommand(store, key, arg);
    if reply == Removed {
      forall i | 0 <= i < |r.entries|
        ensures GoodEntry(r.entries[i])
      {
        assert r.entries[i] in multiset(r.entries);
        assert r.entries[i] in store.entries;
      }
    }
  }

  lemma EditPreservesInv(store: Store, key: Key, arg: string, words: seq<string>)
    requires StoreInv(store) && |words| >= 1 && AllTokens(words)
    ensures StoreInv(EditCommand(store, key, arg, words).0)
  {
    var (r, reply) := EditCommand(store, key, arg, words);
    if reply == Edited {
      var i := ParseInt(arg).value;
      StripJoinedTokens(words);
      var content := Strip(JoinSpace(words));
      EditByIndexTable(store, key, i, content);
      EditByIndexWellKeyed(store, key, i, content);
      assert r == EditByIndex(store, key, i, content).0;
    }
  }

  /** Every message keeps the stored rows well formed: unique growing ids, valid times, clean content. */
  lemma StepPreservesInv(st: State, phone: string, text: string, env: Env)
    requires Inv(st)
    ensures Inv(Step(st, phone, text, env).0)
  {
    var (created, ctx) := GetContext(st.sessions, phone, env);
    var key := Key(phone, ctx.diary, ctx.date);
    var tokens := MessageTokens(text);
    ClassifyWellFormed(tokens);
    var c := Classify(tokens);
    assert Step(st, phone, text, env) == Dispatch(st, phone, env, c);
    DispatchStoreEffect(st, phone, env, c);
    match c
    case Add(args) => AddPreservesInv(st.store, key, args);
    case Remove(arg) => RemovePreservesInv(st.store, key, arg);
    case Edit(arg, words) => EditPreservesInv(st.store, key, arg, words);
    case _ =>
  }

  /** The state before any message satisfies the invariant, so every reachable state does. */
  lemma InitialInv()
    ensures Inv(InitialState)
  {
  }
}
