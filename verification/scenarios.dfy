/**
  Conversations with the bot from an empty database, message by message.
  Messages are written as their tokens joined by single spaces.
 */
module Scenarios {
  import opened Wrappers
  import opened Text
  import opened Numerals
  import opened Validators
  import opened EntryStore
  import opened SessionStore
  import opened Interpreter

  lemma ValidTimeIsToken(t: string)
    requires IsValidTime(t)
    ensures IsToken(t)
  {
  }

  /** `add <time> <first>` as the very first message of `phone`: the row is filed under today's local date. */
  lemma AddTimedFirst(phone: string, env: Env, time: string, first: string)
    requires IsValidTime(time) && IsToken(first)
    ensures var key := Key(phone, DefaultDiary, FormatDate(env.today));
      Step(InitialState, phone, JoinSpace([AddWord, time, first]), env)
        == (State(map[phone := NewSession(env.today)], Store([Entry(1, key, Some(time), first)], 2)), Added(key.date))
  {
    var key := Key(phone, DefaultDiary, FormatDate(env.today));
    ValidTimeIsToken(time);
    CommandWordsAreTokens();
    assert AllTokens([AddWord, time, first]);
    StepOnTokens(InitialState, phone, [AddWord, time, first], env);
    assert Classify([AddWord, time, first]) == Add([time, first]);
    assert [time, first][1..] == [first];
    AddTimedCommand(key, time, first);
  }

  lemma AddTimedCommand(key: Key, time: string, first: string)
    requires IsValidTime(time) && IsToken(first)
    ensures AddCommand(EmptyStore, key, [time, first]) == (Store([Entry(1, key, Some(time), first)], 2), Added(key.date))
  {
    ValidTimeIsToken(time);
    assert [time, first][1..] == [first];
    StripJoinedTokens([first]);
  }

  /** The key a known phone's entry commands use: its diary and the date as the context query reads it. */
  function KnownKey(st: State, phone: string, env: Env): (key: Key)
    requires phone in st.sessions
    ensures key == Key(phone, GetContext(st.sessions, phone, env).1.diary, GetContext(st.sessions, phone, env).1.date)
    ensures env.dateRead == StoredColumn ==> key.date == st.sessions[phone].date
    ensures AsWritten(env) ==> key.date == IsoDate(env.dateRead.utc)
  {
    Key(phone, st.sessions[phone].diary, ReadDate(st.sessions[phone], env.dateRead))
  }

  /** `add <second>` where `second` is not a time: the whole rest is content and no time is stored. */
  lemma AddUntimed(st: State, phone: string, env: Env, second: string)
    requires phone in st.sessions && IsToken(second) && !IsValidTime(second)
    ensures var key := KnownKey(st, phone, env);
      Step(st, phone, JoinSpace([AddWord, second]), env)
        == (State(st.sessions, AddEntry(st.store, key, None, second)), Added(key.date))
  {
    var key := KnownKey(st, phone, env);
    CommandWordsAreTokens();
    assert AllTokens([AddWord, second]);
    StepOnTokens(st, phone, [AddWord, second], env);
    assert Classify([AddWord, second]) == Add([second]);
    StripJoinedTokens([second]);
    assert AddCommand(st.store, key, [second]) == (AddEntry(st.store, key, None, second), Added(key.date));
  }

  /** `view` leaves the state alone and replies with the current listing. */
  lemma ViewStep(st: State, phone: string, env: Env)
    requires phone in st.sessions
    ensures Step(st, phone, JoinSpace([ViewWord]), env) == (st, ViewCommand(st.store, KnownKey(st, phone, env)))
  {
    CommandWordsAreTokens();
    assert AllTokens([ViewWord]);
    StepOnTokens(st, phone, [ViewWord], env);
    assert Classify([ViewWord]) == View;
    DispatchUnchanged(st, phone, env, View);
  }

  /** A command that touches neither store, from a known phone, leaves the whole state as it was. */
  lemma DispatchUnchanged(st: State, phone: string, env: Env, c: Command)
    requires phone in st.sessions
    requires c.View? || c.ShowHelp? || c.Unrecognised? || c.Blank?
    ensures Dispatch(st, phone, env, c).0 == st
  {
  }

  /** `remove 1`. */
  lemma RemoveStep(st: State, phone: string, env: Env)
    requires phone in st.sessions
    ensures var (store, reply) := RemoveCommand(st.store, KnownKey(st, phone, env), "1");
      Step(st, phone, JoinSpace([RemoveWord, "1"]), env) == (State(st.sessions, store), reply)
  {
    CommandWordsAreTokens();
    assert IsToken("1");
    assert AllTokens([RemoveWord, "1"]);
    StepOnTokens(st, phone, [RemoveWord, "1"], env);
    assert Classify([RemoveWord, "1"]) == Remove("1");
  }

  /** `select date <d>` from a known phone, for a date the validator accepts. */
  lemma SelectDateStep(st: State, phone: string, env: Env, d: string)
    requires phone in st.sessions && IsToken(d) && IsValidDate(d)
    ensures var diary := st.sessions[phone].diary;
      Step(st, phone, JoinSpace([SelectWord, DateWord, d]), env)
        == (State(st.sessions[phone := Session(diary, d)], st.store), DateSelected(d, diary))
  {
    CommandWordsAreTokens();
    assert AllTokens([SelectWord, DateWord, d]);
    StepOnTokens(st, phone, [SelectWord, DateWord, d], env);
    assert Classify([SelectWord, DateWord, d]) == SelectDate(d);
  }

  lemma ViewTwo(key: Key, st: Store, time: string, first: string, second: string)
    requires IsValidTime(time)
    requires st == Store([Entry(1, key, Some(time), first), Entry(2, key, None, second)], 3)
    ensures DisplayList(st, key) == st.entries
    ensures ViewCommand(st, key) == Listing(key.diary, key.date, ["1. " + time + " - " + first, "2.  - " + second])
  {
    var e1, e2 := st.entries[0], st.entries[1];
    assert Select(st.entries, key) == [e1, e2];
    assert Precedes(e1, e2);
    assert Insert(e2, []) == [e2];
    assert SortEntries([e1, e2]) == [e1, e2];
    assert NatToString(1) == "1" && NatToString(2) == "2";
    assert time != "";
    assert NumberedLine(1, e1) == "1. " + time + " - " + first;
    assert NumberedLine(2, e2) == "2.  - " + second;
  }

  lemma ViewOne(key: Key, st: Store, second: string)
    requires st == Store([Entry(2, key, None, second)], 3)
    ensures ViewCommand(st, key) == Listing(key.diary, key.date, ["1.  - " + second])
  {
    var e2 := st.entries[0];
    assert Select(st.entries, key) == [e2];
    assert NatToString(1) == "1";
    assert NumberedLine(1, e2) == "1.  - " + second;
  }

  lemma RemoveFirst(key: Key, st: Store, time: string, first: string, second: string)
    requires IsValidTime(time)
    requires st == Store([Entry(1, key, Some(time), first), Entry(2, key, None, second)], 3)
    ensures RemoveCommand(st, key, "1") == (Store([Entry(2, key, None, second)], 3), Removed)
  {
    ViewTwo(key, st, time, first, second);
    assert ParseInt("1") == Some(1);
    assert RemoveId(st.entries, 1) == [st.entries[1]];
  }

  /**
    The first two messages of the conversations below: a timed add from a new
    phone, filed under today's local date, then an untimed add, filed under the
    date the context query reads back.
   */
  lemma TwoAdds(phone: string, env: Env, time: string, first: string, second: string)
    requires IsValidTime(time) && IsToken(first) && IsToken(second) && !IsValidTime(second)
    ensures var sessions := map[phone := NewSession(env.today)];
      var e1 := Entry(1, Key(phone, DefaultDiary, FormatDate(env.today)), Some(time), first);
      var later := ReadDate(NewSession(env.today), env.dateRead);
      var e2 := Entry(2, Key(phone, DefaultDiary, later), None, second);
      && Step(InitialState, phone, JoinSpace([AddWord, time, first]), env)
         == (State(sessions, Store([e1], 2)), Added(FormatDate(env.today)))
      && Step(State(sessions, Store([e1], 2)), phone, JoinSpace([AddWord, second]), env)
         == (State(sessions, Store([e1, e2], 3)), Added(later))
  {
    var sessions := map[phone := NewSession(env.today)];
    var e1 := Entry(1, Key(phone, DefaultDiary, FormatDate(env.today)), Some(time), first);
    var later := ReadDate(NewSession(env.today), env.dateRead);
    var key := Key(phone, DefaultDiary, later);
    var s1 := State(sessions, Store([e1], 2));
    var e2 := Entry(2, key, None, second);
    assert Step(InitialState, phone, JoinSpace([AddWord, time, first]), env) == (s1, Added(FormatDate(env.today))) by {
      AddTimedFirst(phone, env, time, first);
    }
    assert AddEntry(s1.store, key, None, second) == Store([e1, e2], 3) by {
      AddOne(s1.store, key, None, second);
      assert [e1] + [e2] == [e1, e2];
    }
    assert KnownKey(s1, phone, env) == key;
    AddUntimed(s1, phone, env, second);
  }

  /**
    Reading the stored date column: add a timed and an untimed entry, view them
    (timed first, numbered from 1), remove number 1 and view again: the untimed
    entry is now number 1.
   */
  lemma AddViewRemoveView(phone: string, today: CalendarDate, time: string, first: string, second: string)
    requires IsValidTime(time) && IsToken(first) && IsToken(second) && !IsValidTime(second)
    ensures var env := Env(today, StoredColumn);
      var (s1, r1) := Step(InitialState, phone, JoinSpace([AddWord, time, first]), env);
      var (s2, r2) := Step(s1, phone, JoinSpace([AddWord, second]), env);
      var (s3, r3) := Step(s2, phone, JoinSpace([ViewWord]), env);
      var (s4, r4) := Step(s3, phone, JoinSpace([RemoveWord, "1"]), env);
      var (s5, r5) := Step(s4, phone, JoinSpace([ViewWord]), env);
      && r1 == Added(FormatDate(today)) && r2 == Added(FormatDate(today))
      && r3 == Listing(DefaultDiary, FormatDate(today), ["1. " + time + " - " + first, "2.  - " + second])
      && r4 == Removed
      && r5 == Listing(DefaultDiary, FormatDate(today), ["1.  - " + second])
  {
    var env := Env(today, StoredColumn);
    var key := Key(phone, DefaultDiary, FormatDate(today));
    var sessions := map[phone := NewSession(today)];
    var s1 := State(sessions, Store([Entry(1, key, Some(time), first)], 2));
    var s2 := State(sessions, Store([Entry(1, key, Some(time), first), Entry(2, key, None, second)], 3));
    var s4 := State(sessions, Store([Entry(2, key, None, second)], 3));
    assert Step(InitialState, phone, JoinSpace([AddWord, time, first]), env) == (s1, Added(key.date))
        && Step(s1, phone, JoinSpace([AddWord, second]), env) == (s2, Added(key.date)) by {
      TwoAdds(phone, env, time, first, second);
    }
    assert Step(s2, phone, JoinSpace([ViewWord]), env)
        == (s2, Listing(DefaultDiary, key.date, ["1. " + time + " - " + first, "2.  - " + second])) by {
      ViewStep(s2, phone, env);
      ViewTwo(key, s2.store, time, first, second);
    }
    assert Step(s2, phone, JoinSpace([RemoveWord, "1"]), env) == (s4, Removed) by {
      RemoveStep(s2, phone, env);
      RemoveFirst(key, s2.store, time, first, second);
    }
    assert Step(s4, phone, JoinSpace([ViewWord]), env) == (s4, Listing(DefaultDiary, key.date, ["1.  - " + second])) by {
      ViewStep(s4, phone, env);
      ViewOne(key, s4.store, second);
    }
  }

  /** Two rows under two different keys: the second key lists only its own row, and `remove 1` removes it. */
  lemma ViewOtherKey(earlier: Key, key: Key, st: Store, time: string, first: string, second: string)
    requires earlier != key && IsValidTime(time)
    requires st == Store([Entry(1, earlier, Some(time), first), Entry(2, key, None, second)], 3)
    ensures ViewCommand(st, key) == Listing(key.diary, key.date, ["1.  - " + second])
    ensures RemoveCommand(st, key, "1") == (Store([Entry(1, earlier, Some(time), first)], 3), Removed)
    ensures ViewCommand(Store([Entry(1, earlier, Some(time), first)], 3), key) == NoEntries(key.date)
  {
    var e1, e2 := st.entries[0], st.entries[1];
    assert Select(st.entries, key) == [e2];
    assert DisplayList(st, key) == [e2];
    assert NatToString(1) == "1";
    assert NumberedLine(1, e2) == "1.  - " + second;
    assert ParseInt("1") == Some(1);
    assert RemoveId(st.entries, 2) == [e1];
    assert Select([e1], key) == [];
  }

  /**
    The same conversation as the program is written, where every lookup after
    the first returns SQLite's date: the timed row is filed under today's local
    date by the first message and is never listed; the views and the removal
    see only the untimed row, and the timed row stays in the table.
   */
  lemma AddViewRemoveViewAsWritten(phone: string, today: CalendarDate, utc: CalendarDate, time: string, first: string, second: string)
    requires IsValidTime(time) && IsToken(first) && IsToken(second) && !IsValidTime(second)
    ensures var env := Env(today, CurrentDateKeyword(utc));
      var (s1, r1) := Step(InitialState, phone, JoinSpace([AddWord, time, first]), env);
      var (s2, r2) := Step(s1, phone, JoinSpace([AddWord, second]), env);
      var (s3, r3) := Step(s2, phone, JoinSpace([ViewWord]), env);
      var (s4, r4) := Step(s3, phone, JoinSpace([RemoveWord, "1"]), env);
      var (s5, r5) := Step(s4, phone, JoinSpace([ViewWord]), env);
      && r1 == Added(FormatDate(today)) && r2 == Added(IsoDate(utc))
      && r3 == Listing(DefaultDiary, IsoDate(utc), ["1.  - " + second])
      && r4 == Removed
      && r5 == NoEntries(IsoDate(utc))
      && s5.store.entries == [Entry(1, Key(phone, DefaultDiary, FormatDate(today)), Some(time), first)]
  {
    var env := Env(today, CurrentDateKeyword(utc));
    var earlier := Key(phone, DefaultDiary, FormatDate(today));
    var key := Key(phone, DefaultDiary, IsoDate(utc));
    var sessions := map[phone := NewSession(today)];
    var s1 := State(sessions, Store([Entry(1, earlier, Some(time), first)], 2));
    var s2 := State(sessions, Store([Entry(1, earlier, Some(time), first), Entry(2, key, None, second)], 3));
    var s4 := State(sessions, Store([Entry(1, earlier, Some(time), first)], 3));
    assert earlier != key by {
      IsoDateIsNotLocal(utc, today);
    }
    assert Step(InitialState, phone, JoinSpace([AddWord, time, first]), env) == (s1, Added(earlier.date))
        && Step(s1, phone, JoinSpace([AddWord, second]), env) == (s2, Added(key.date)) by {
      TwoAdds(phone, env, time, first, second);
    }
    assert Step(s2, phone, JoinSpace([ViewWord]), env) == (s2, Listing(DefaultDiary, key.date, ["1.  - " + second]))
        && Step(s2, phone, JoinSpace([RemoveWord, "1"]), env) == (s4, Removed)
        && Step(s4, phone, JoinSpace([ViewWord]), env) == (s4, NoEntries(key.date)) by {
      ViewOtherKey(earlier, key, s2.store, time, first, second);
      ViewStep(s2, phone, env);
      RemoveStep(s2, phone, env);
      ViewStep(s4, phone, env);
    }
  }

  /**
    Reading the stored date column, a date chosen with `select date` keys the
    next entry: `add` files it under that date and says so.
   */
  lemma SelectedDateUsed(st: State, phone: string, today: CalendarDate, d: string, second: string)
    requires phone in st.sessions && IsToken(d) && IsValidDate(d) && IsToken(second) && !IsValidTime(second)
    ensures var env := Env(today, StoredColumn);
      var (s1, r1) := Step(st, phone, JoinSpace([SelectWord, DateWord, d]), env);
      var (s2, r2) := Step(s1, phone, JoinSpace([AddWord, second]), env);
      && r1 == DateSelected(d, st.sessions[phone].diary)
      && r2 == Added(d)
      && s2.store == AddEntry(st.store, Key(phone, st.sessions[phone].diary, d), None, second)
  {
    var env := Env(today, StoredColumn);
    SelectDateStep(st, phone, env, d);
    var (s1, r1) := Step(st, phone, JoinSpace([SelectWord, DateWord, d]), env);
    AddUntimed(s1, phone, env, second);
  }

  /**
    As written, the chosen date is stored but never read back: `add` after
    `select date <d>` files the row under SQLite's date, which differs from
    every date the date command accepts.
   */
  lemma SelectedDateIgnored(st: State, phone: string, today: CalendarDate, utc: CalendarDate, d: string, second: string)
    requires phone in st.sessions && IsToken(d) && IsValidDate(d) && IsToken(second) && !IsValidTime(second)
    ensures var env := Env(today, CurrentDateKeyword(utc));
      var (s1, r1) := Step(st, phone, JoinSpace([SelectWord, DateWord, d]), env);
      var (s2, r2) := Step(s1, phone, JoinSpace([AddWord, second]), env);
      && r1 == DateSelected(d, st.sessions[phone].diary)
      && s1.sessions[phone].date == d
      && r2 == Added(IsoDate(utc))
      && r2 != Added(d)
      && s2.store == AddEntry(st.store, Key(phone, st.sessions[phone].diary, IsoDate(utc)), None, second)
  {
    var env := Env(today, CurrentDateKeyword(utc));
    IsoDateNeverValid(utc);
    SelectDateStep(st, phone, env, d);
    var (s1, r1) := Step(st, phone, JoinSpace([SelectWord, DateWord, d]), env);
    AddUntimed(s1, phone, env, second);
  }

  /** The first message of `BadDateThenView`, from a new phone. */
  lemma BadDateStep(phone: string, env: Env)
    ensures Step(InitialState, phone, JoinSpace([SelectWord, DateWord, "31-2-2025"]), env)
         == (State(map[phone := NewSession(env.today)], EmptyStore), BadDate)
  {
    var words := [SelectWord, DateWord, "31-2-2025"];
    BadDateToken();
    CommandWordsAreTokens();
    assert AllTokens(words);
    StepOnTokens(InitialState, phone, words, env);
    assert Classify(words) == SelectDate("31-2-2025");
    DispatchSessionEffect(InitialState, phone, env, SelectDate("31-2-2025"));
  }

  /** `view` from a phone whose only record is the session its first message created. */
  lemma ViewNewSession(phone: string, env: Env)
    ensures var s1 := State(map[phone := NewSession(env.today)], EmptyStore);
      Step(s1, phone, JoinSpace([ViewWord]), env) == (s1, NoEntries(ReadDate(NewSession(env.today), env.dateRead)))
  {
    var s1 := State(map[phone := NewSession(env.today)], EmptyStore);
    ViewStep(s1, phone, env);
    NothingToView(KnownKey(s1, phone, env));
  }

  /**
    A first contact asking for 31 February is refused and changes nothing but
    the new session. Viewing afterwards reports the date the context query
    reads: today's local date from the stored column, SQLite's date as written.
   */
  lemma BadDateThenView(phone: string, env: Env)
    ensures var s1 := State(map[phone := Session(DefaultDiary, FormatDate(env.today))], EmptyStore);
      && Step(InitialState, phone, JoinSpace([SelectWord, DateWord, "31-2-2025"]), env) == (s1, BadDate)
      && Step(s1, phone, JoinSpace([ViewWord]), env).0 == s1
      && (env.dateRead == StoredColumn ==> Step(s1, phone, JoinSpace([ViewWord]), env).1 == NoEntries(FormatDate(env.today)))
      && (AsWritten(env) ==> Step(s1, phone, JoinSpace([ViewWord]), env).1 == NoEntries(IsoDate(env.dateRead.utc)))
  {
    BadDateStep(phone, env);
    ViewNewSession(phone, env);
  }

  lemma NothingToView(key: Key)
    ensures ViewCommand(EmptyStore, key) == NoEntries(key.date)
  {
    assert Select([], key) == [];
  }

  lemma BadDateToken()
    ensures IsToken("31-2-2025") && !IsValidDate("31-2-2025")
  {
    DateShapedIsToken("31-2-2025");
    DateExampleMonthLength();
  }

  lemma AddOne(st: Store, key: Key, t: Option<string>, c: string)
    ensures AddEntry(st, key, t, c) == Store(st.entries + [Entry(st.nextId, key, t, c)], st.nextId + 1)
  {
  }

  /** Four rows added to one key from an empty table get ids 1 to 4 in order. */
  lemma FourAdded(key: Key, t1: Option<string>, t2: Option<string>, t3: Option<string>, t4: Option<string>, c1: string, c2: string, c3: string, c4: string)
    ensures var st := AddEntry(AddEntry(AddEntry(AddEntry(EmptyStore, key, t1, c1), key, t2, c2), key, t3, c3), key, t4, c4);
      st.entries == [Entry(1, key, t1, c1), Entry(2, key, t2, c2), Entry(3, key, t3, c3), Entry(4, key, t4, c4)]
  {
    var s1 := AddEntry(EmptyStore, key, t1, c1);
    AddOne(EmptyStore, key, t1, c1);
    var s2 := AddEntry(s1, key, t2, c2);
    AddOne(s1, key, t2, c2);
    var s3 := AddEntry(s2, key, t3, c3);
    AddOne(s2, key, t3, c3);
    AddOne(s3, key, t4, c4);
  }

  lemma {:induction false} SelectAll(s: seq<Entry>, key: Key)
    requires forall i :: 0 <= i < |s| ==> s[i].key == key
    ensures Select(s, key) == s
  {
    if |s| > 0 {
      SelectAll(s[1..], key);
      assert s == [s[0]] + s[1..];
    }
  }

  lemma InsertFront(e: Entry, s: seq<Entry>)
    requires |s| > 0 && Precedes(e, s[0])
    ensures Insert(e, s) == [e] + s
  {
  }

  lemma InsertPast(e: Entry, s: seq<Entry>)
    requires |s| > 0 && !Precedes(e, s[0])
    ensures Insert(e, s) == [s[0]] + Insert(e, s[1..])
  {
  }

  lemma SortStep(s: seq<Entry>)
    requires |s| > 0
    ensures SortEntries(s) == Insert(s[0], SortEntries(s[1..]))
  {
  }

  lemma SortTail(e2: Entry, e3: Entry, e4: Entry)
    requires Precedes(e3, e4) && Precedes(e2, e3)
    ensures SortEntries([e2, e3, e4]) == [e2, e3, e4]
  {
    SortStep([e4]);
    assert [e4][1..] == [];
    assert SortEntries([e4]) == [e4];
    SortStep([e3, e4]);
    assert [e3, e4][1..] == [e4];
    InsertFront(e3, [e4]);
    SortStep([e2, e3, e4]);
    assert [e2, e3, e4][1..] == [e3, e4];
    InsertFront(e2, [e3, e4]);
  }

  lemma SortFirstStep(e1: Entry, e2: Entry, e3: Entry, e4: Entry)
    requires Precedes(e3, e4) && Precedes(e2, e3)
    ensures SortEntries([e1, e2, e3, e4]) == Insert(e1, [e2, e3, e4])
  {
    var all, tail := [e1, e2, e3, e4], [e2, e3, e4];
    assert all[1..] == tail && all[0] == e1;
    SortTail(e2, e3, e4);
    SortStep(all);
  }

  lemma InsertSecond(e1: Entry, e2: Entry, e3: Entry, e4: Entry)
    requires !Precedes(e1, e2) && Precedes(e1, e3)
    ensures Insert(e1, [e2, e3, e4]) == [e2, e1, e3, e4]
  {
    var tail, rest := [e2, e3, e4], [e3, e4];
    assert tail[1..] == rest && tail[0] == e2;
    InsertPast(e1, tail);
    InsertFront(e1, rest);
  }

  /**
    Rows added with a later time, then an earlier time (10:00 then 09:00, say),
    then two rows without a time are listed earlier time first, then the later
    time, then the untimed rows in the order they were added.
   */
  lemma DisplayOrderExample(key: Key, late: string, early: string, c1: string, c2: string, c3: string, c4: string)
    requires IsValidTime(late) && IsValidTime(early) && MinuteOfDay(early) < MinuteOfDay(late)
    ensures var st := AddEntry(AddEntry(AddEntry(AddEntry(EmptyStore, key, Some(late), c1), key, Some(early), c2), key, None, c3), key, None, c4);
      DisplayList(st, key) == [Entry(2, key, Some(early), c2), Entry(1, key, Some(late), c1), Entry(3, key, None, c3), Entry(4, key, None, c4)]
  {
    var e1, e2, e3, e4 := Entry(1, key, Some(late), c1), Entry(2, key, Some(early), c2), Entry(3, key, None, c3), Entry(4, key, None, c4);
    FourAdded(key, Some(late), Some(early), None, None, c1, c2, c3, c4);
    SelectAll([e1, e2, e3, e4], key);
    TimeOrderIsChronological(early, late);
    TimeOrderIsChronological(late, early);
    SortFirstStep(e1, e2, e3, e4);
    InsertSecond(e1, e2, e3, e4);
  }
}
