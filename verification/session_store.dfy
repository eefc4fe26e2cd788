/**
  The `users` table of the diary bot, held in memory: one session per phone
  holding the diary and the date its commands apply to.
 */
module SessionStore {
  import opened Validators

  datatype Session = Session(diary: string, date: string)

  type Sessions = map<string, Session>

  /**
    What the second column of `SELECT current_diary, current_date FROM users`
    yields. Unquoted, as app.py:61 writes it, `current_date` in an SQLite
    expression is the CURRENT_DATE keyword: the UTC date when the query runs.
    It names the column only where the keyword cannot stand, as in the
    CREATE TABLE and the INSERT column lists. `StoredColumn` is the column
    itself, which a quoted `"current_date"` would read.
   */
  datatype DateRead = CurrentDateKeyword(utc: CalendarDate) | StoredColumn

  /**
    What one request sees beyond the tables: Python's `datetime.date.today()`
    (the server's local date) and what the context query reads as the date.
   */
  datatype Env = Env(today: CalendarDate, dateRead: DateRead)

  /** The program as written reads SQLite's clock, not the stored date. */
  predicate AsWritten(env: Env) {
    env.dateRead.CurrentDateKeyword?
  }

  /** The diary a new user starts in ("default"). */
  const DefaultDiary: string := "ברירת מחדל"

  /** The session a first contact creates on the given day. */
  function NewSession(today: CalendarDate): Session {
    Session(DefaultDiary, FormatDate(today))
  }

  /** The date the context query returns for a stored session. */
  function ReadDate(s: Session, read: DateRead): string {
    match read
    case CurrentDateKeyword(utc) => IsoDate(utc)
    case StoredColumn => s.date
  }

  /**
    `get_user_context`: a known phone gets its stored diary and the date as the
    query reads it; a new phone gets the default diary and today's local date,
    stored before they are returned.
   */
  function GetContext(ss: Sessions, phone: string, env: Env): (r: (Sessions, Session))
    ensures phone in r.0 && r.0.Keys == ss.Keys + {phone}
    ensures forall p :: p in ss ==> r.0[p] == ss[p]
    ensures phone in ss ==> r.1.diary == ss[phone].diary
    ensures phone in ss && env.dateRead == StoredColumn ==> r.1 == ss[phone]
    ensures phone in ss && AsWritten(env) ==> r.1.date == IsoDate(env.dateRead.utc)
    ensures phone !in ss ==> r.1 == NewSession(env.today) && r.0[phone] == r.1
  {
    if phone in ss then (ss, Session(ss[phone].diary, ReadDate(ss[phone], env.dateRead)))
    else
      var s := NewSession(env.today);
      (ss[phone := s], s)
  }

  /** A second lookup creates nothing and finds the diary the first one returned. */
  lemma GetContextCreatesOnce(ss: Sessions, phone: string, env: Env, later: Env)
    ensures var (ss1, s1) := GetContext(ss, phone, env);
      && GetContext(ss1, phone, later).0 == ss1
      && GetContext(ss1, phone, later).1.diary == s1.diary
  {
  }

  /** Reading the stored column, a second lookup returns exactly what the first one did. */
  lemma GetContextIdempotent(ss: Sessions, phone: string, today: CalendarDate, later: CalendarDate)
    ensures var (ss1, s1) := GetContext(ss, phone, Env(today, StoredColumn));
      GetContext(ss1, phone, Env(later, StoredColumn)) == (ss1, s1)
  {
  }

  /**
    As written, the date a first contact stores is never returned again: every
    later lookup returns SQLite's date, which `format_date_local` never produces.
   */
  lemma FirstDateForgotten(ss: Sessions, phone: string, today: CalendarDate, utc: CalendarDate, later: CalendarDate)
    requires phone !in ss
    ensures var (ss1, s1) := GetContext(ss, phone, Env(today, CurrentDateKeyword(utc)));
      && s1.date == FormatDate(today)
      && GetContext(ss1, phone, Env(later, CurrentDateKeyword(utc))).1.date == IsoDate(utc)
      && GetContext(ss1, phone, Env(later, CurrentDateKeyword(utc))).1.date != s1.date
  {
    IsoDateIsNotLocal(utc, today);
  }

  /** A first contact adds exactly one session; a known phone adds none. */
  lemma GetContextCreatesOne(ss: Sessions, phone: string, env: Env)
    ensures |GetContext(ss, phone, env).0| == if phone in ss then |ss| else |ss| + 1
  {
  }

  /**
    `update_user_diary`: the diary changes, and the date the context query just
    returned is written back as the date.
   */
  function UpdateDiary(ss: Sessions, phone: string, diary: string, env: Env): (r: Sessions)
    ensures r.Keys == ss.Keys + {phone}
    ensures r[phone].diary == diary
    ensures r[phone].date == GetContext(ss, phone, env).1.date
    ensures phone in ss && env.dateRead == StoredColumn ==> r[phone].date == ss[phone].date
    ensures phone in ss && AsWritten(env) ==> r[phone].date == IsoDate(env.dateRead.utc)
    ensures forall p :: p in ss && p != phone ==> r[p] == ss[p]
  {
    var (ss1, current) := GetContext(ss, phone, env);
    ss1[phone := Session(diary, current.date)]
  }

  /** `update_user_date`: the date changes and the (possibly just created) diary is kept. */
  function UpdateDate(ss: Sessions, phone: string, date: string, env: Env): (r: Sessions)
    ensures r.Keys == ss.Keys + {phone}
    ensures r[phone].date == date
    ensures r[phone].diary == GetContext(ss, phone, env).1.diary
    ensures phone in ss ==> r[phone].diary == ss[phone].diary
    ensures forall p :: p in ss && p != phone ==> r[p] == ss[p]
  {
    var (ss1, current) := GetContext(ss, phone, env);
    ss1[phone := Session(current.diary, date)]
  }

  /**
    Reading the stored column, diary and date are independent fields: setting
    one and then the other gives the same table in either order, holding both
    new values.
   */
  lemma UpdatesCommute(ss: Sessions, phone: string, diary: string, date: string, today: CalendarDate)
    ensures var env := Env(today, StoredColumn);
      && UpdateDate(UpdateDiary(ss, phone, diary, env), phone, date, env)
         == UpdateDiary(UpdateDate(ss, phone, date, env), phone, diary, env)
      && UpdateDate(UpdateDiary(ss, phone, diary, env), phone, date, env)[phone] == Session(diary, date)
  {
  }

  /**
    As written, setting the diary after the date overwrites the chosen date
    with SQLite's, so the two orders disagree for every date the date command
    accepts.
   */
  lemma UpdatesDoNotCommute(ss: Sessions, phone: string, diary: string, date: string, env: Env)
    requires AsWritten(env) && IsValidDate(date)
    ensures UpdateDate(UpdateDiary(ss, phone, diary, env), phone, date, env)[phone] == Session(diary, date)
    ensures UpdateDiary(UpdateDate(ss, phone, date, env), phone, diary, env)[phone] == Session(diary, IsoDate(env.dateRead.utc))
    ensures UpdateDate(UpdateDiary(ss, phone, diary, env), phone, date, env)
         != UpdateDiary(UpdateDate(ss, phone, date, env), phone, diary, env)
  {
    IsoDateNeverValid(env.dateRead.utc);
    var a := UpdateDate(UpdateDiary(ss, phone, diary, env), phone, date, env);
    var b := UpdateDiary(UpdateDate(ss, phone, date, env), phone, diary, env);
    assert a[phone].date != b[phone].date;
  }
}
