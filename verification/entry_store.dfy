/**
  The `entries` table of the diary bot, held in memory: insertion (`add_entry`),
  the ordered per-day listing (`get_entries`) and the two positional mutations
  (`delete_entry_by_index`, `edit_entry_by_index`).
 */
module EntryStore {
  import opened Wrappers
  import opened Text

  /** The (phone, diary_name, entry_date) triple that selects one listing. */
  datatype Key = Key(phone: string, diary: string, date: string)

  /** One row of `entries`; `id` is the AUTOINCREMENT primary key. */
  datatype Entry = Entry(id: nat, key: Key, time: Option<string>, content: string)

  /** The rows in insertion order, and the id AUTOINCREMENT hands out next. */
  datatype Store = Store(entries: seq<Entry>, nextId: nat)

  const EmptyStore := Store([], 1)

  predicate IdsIncreasing(s: seq<Entry>) {
    forall i, j :: 0 <= i < j < |s| ==> s[i].id < s[j].id
  }

  predicate DistinctIds(s: seq<Entry>) {
    forall i, j :: 0 <= i < |s| && 0 <= j < |s| && s[i].id == s[j].id ==> i == j
  }

  /** AUTOINCREMENT keys: ids grow with insertion order and stay below the counter. */
  predicate WellKeyed(st: Store) {
    && IdsIncreasing(st.entries)
    && forall i :: 0 <= i < |st.entries| ==> st.entries[i].id < st.nextId
  }

  lemma IncreasingIsDistinct(s: seq<Entry>)
    requires IdsIncreasing(s)
    ensures DistinctIds(s)
  {
  }

  /** With unique ids, an id determines the row. */
  lemma SameIdSameEntry(s: seq<Entry>, x: Entry, y: Entry)
    requires DistinctIds(s) && x in s && y in s && x.id == y.id
    ensures x == y
  {
    var i :| 0 <= i < |s| && s[i] == x;
    var j :| 0 <= j < |s| && s[j] == y;
  }

  // ---------------------------------------------------------------- add

  /** `add_entry`: one new row with a fresh id; all existing rows stay as they were. */
  function AddEntry(st: Store, key: Key, time: Option<string>, content: string): (r: Store)
    ensures |r.entries| == |st.entries| + 1
    ensures r.entries[..|st.entries|] == st.entries
    ensures r.entries[|st.entries|].key == key
    ensures r.entries[|st.entries|].time == time
    ensures r.entries[|st.entries|].content == content
    ensures WellKeyed(st) ==> WellKeyed(r)
    ensures WellKeyed(st) ==> forall x :: x in st.entries ==> x.id != r.entries[|st.entries|].id
  {
    Store(st.entries + [Entry(st.nextId, key, time, content)], st.nextId + 1)
  }

  // ---------------------------------------------------------------- listing

  /** The rows `WHERE phone = ? AND diary_name = ? AND entry_date = ?` selects, in storage order. */
  function Select(s: seq<Entry>, key: Key): (r: seq<Entry>)
    ensures |r| <= |s|
    ensures forall x :: x in r <==> x in s && x.key == key
  {
    if |s| == 0 then []
    else if s[0].key == key then [s[0]] + Select(s[1..], key)
    else Select(s[1..], key)
  }

  /**
    `ORDER BY (CASE WHEN entry_time IS NULL THEN 1 ELSE 0 END), entry_time`:
    timed rows first, by time under SQLite's binary collation; rows the clause
    leaves tied (no time, or equal times) go by ascending id.
   */
  predicate Precedes(a: Entry, b: Entry) {
    match (a.time, b.time)
    case (Some(ta), Some(tb)) => StrLess(ta, tb) || (ta == tb && a.id <= b.id)
    case (Some(_), None) => true
    case (None, Some(_)) => false
    case (None, None) => a.id <= b.id
  }

  lemma PrecedesTotal(a: Entry, b: Entry)
    ensures Precedes(a, b) || Precedes(b, a)
  {
    if a.time.Some? && b.time.Some? {
      StrLessTrichotomy(a.time.value, b.time.value);
    }
  }

  lemma PrecedesTransitive(a: Entry, b: Entry, c: Entry)
    requires Precedes(a, b) && Precedes(b, c)
    ensures Precedes(a, c)
  {
    if a.time.Some? && b.time.Some? && c.time.Some? {
      var ta, tb, tc := a.time.value, b.time.value, c.time.value;
      if StrLess(ta, tb) && StrLess(tb, tc) {
        StrLessTransitive(ta, tb, tc);
      }
    }
  }

  predicate Sorted(s: seq<Entry>) {
    forall i, j :: 0 <= i < j < |s| ==> Precedes(s[i], s[j])
  }

  /** A row that precedes every row of a sorted list can head it. */
  lemma SortedCons(x: Entry, t: seq<Entry>)
    requires Sorted(t)
    requires forall y :: y in t ==> Precedes(x, y)
    ensures Sorted([x] + t)
  {
    var r := [x] + t;
    forall i, j | 0 <= i < j < |r|
      ensures Precedes(r[i], r[j])
    {
      if i == 0 {
        assert r[j] == t[j - 1];
      } else {
        assert r[i] == t[i - 1] && r[j] == t[j - 1];
      }
    }
  }

  /** The head of a sorted list precedes all of it. */
  lemma SortedHead(t: seq<Entry>)
    requires Sorted(t) && |t| > 0
    ensures forall y :: y in t ==> Precedes(t[0], y)
  {
    forall y | y in t
      ensures Precedes(t[0], y)
    {
      var j :| 0 <= j < |t| && t[j] == y;
      if j == 0 {
        PrecedesTotal(y, y);
      }
    }
  }

  /** One step of insertion sort. */
  function Insert(e: Entry, s: seq<Entry>): (r: seq<Entry>)
    ensures |r| == |s| + 1
    ensures multiset(r) == multiset(s) + multiset{e}
    ensures forall x :: x in r <==> x == e || x in s
    ensures Sorted(s) ==> Sorted(r)
  {
    if |s| == 0 then [e]
    else if Precedes(e, s[0]) then
      InsertAtHead(e, s);
      [e] + s
    else
      var t := Insert(e, s[1..]);
      InsertBehindHead(e, s, t);
      assert s == [s[0]] + s[1..];
      [s[0]] + t
  }

  lemma InsertAtHead(e: Entry, s: seq<Entry>)
    requires |s| > 0 && Precedes(e, s[0])
    ensures Sorted(s) ==> Sorted([e] + s)
  {
    if Sorted(s) {
      SortedHead(s);
      forall y | y in s
        ensures Precedes(e, y)
      {
        PrecedesTransitive(e, s[0], y);
      }
      SortedCons(e, s);
    }
  }

  lemma InsertBehindHead(e: Entry, s: seq<Entry>, t: seq<Entry>)
    requires |s| > 0 && !Precedes(e, s[0])
    requires forall x :: x in t <==> x == e || x in s[1..]
    requires Sorted(s[1..]) ==> Sorted(t)
    ensures Sorted(s) ==> Sorted([s[0]] + t)
  {
    if Sorted(s) {
      assert Sorted(s[1..]);
      PrecedesTotal(e, s[0]);
      SortedHead(s);
      forall y | y in t
        ensures Precedes(s[0], y)
      {
        if y != e {
          assert y in s;
        }
      }
      SortedCons(s[0], t);
    }
  }

  /** Insertion sort under `Precedes`. */
  function SortEntries(s: seq<Entry>): (r: seq<Entry>)
    ensures |r| == |s|
    ensures multiset(r) == multiset(s)
    ensures forall x :: x in r <==> x in s
    ensures Sorted(r)
  {
    if |s| == 0 then []
    else
      assert s == [s[0]] + s[1..];
      Insert(s[0], SortEntries(s[1..]))
  }

  /** `get_entries`: the rows of one (phone, diary, date), in display order. */
  function DisplayList(st: Store, key: Key): (r: seq<Entry>)
    ensures multiset(r) == multiset(Select(st.entries, key))
    ensures forall x :: x in r <==> x in st.entries && x.key == key
    ensures Sorted(r)
  {
    SortEntries(Select(st.entries, key))
  }

  lemma {:induction false} SelectAppend(s: seq<Entry>, e: Entry, key: Key)
    ensures Select(s + [e], key) == Select(s, key) + (if e.key == key then [e] else [])
  {
    if |s| == 0 {
      assert [e][1..] == [];
    } else {
      assert (s + [e])[1..] == s[1..] + [e];
      SelectAppend(s[1..], e, key);
    }
  }

  /**
    A new row joins the listing of its own (phone, diary, date) and no other;
    the listing it joins keeps all its previous lines.
   */
  lemma AddEntryListings(st: Store, key: Key, time: Option<string>, content: string)
    ensures var r := AddEntry(st, key, time, content);
      var e := r.entries[|st.entries|];
      && multiset(DisplayList(r, key)) == multiset(DisplayList(st, key)) + multiset{e}
      && (forall k :: k != key ==> DisplayList(r, k) == DisplayList(st, k))
  {
    var r := AddEntry(st, key, time, content);
    var e := r.entries[|st.entries|];
    assert r.entries == st.entries + [e];
    SelectAppend(st.entries, e, key);
    forall k | k != key
      ensures DisplayList(r, k) == DisplayList(st, k)
    {
      SelectAppend(st.entries, e, k);
      assert Select(st.entries, k) + [] == Select(st.entries, k);
    }
  }

  lemma StrLessAsymmetric(a: string, b: string)
    requires StrLess(a, b)
    ensures !StrLess(b, a)
  {
    if StrLess(b, a) {
      StrLessTransitive(a, b, a);
      StrLessIrreflexive(a);
    }
  }

  /**
    The display order spelled out: every timed row comes before every untimed
    row, times never decrease, and rows the query leaves tied appear in the
    order they were added.
   */
  lemma DisplayOrder(st: Store, key: Key)
    requires WellKeyed(st)
    ensures var r := DisplayList(st, key);
      && (forall i, j :: 0 <= i < j < |r| && r[j].time.Some? ==> r[i].time.Some?)
      && (forall i, j :: 0 <= i < j < |r| && r[i].time.Some? && r[j].time.Some? ==>
            !StrLess(r[j].time.value, r[i].time.value))
      && (forall i, j :: 0 <= i < j < |r| && r[i].time == r[j].time ==> r[i].id < r[j].id)
  {
    var r := DisplayList(st, key);
    DisplayDistinct(st, key);
    forall i, j | 0 <= i < j < |r| && r[i].time.Some? && r[j].time.Some?
      ensures !StrLess(r[j].time.value, r[i].time.value)
    {
      assert Precedes(r[i], r[j]);
      if StrLess(r[i].time.value, r[j].time.value) {
        StrLessAsymmetric(r[i].time.value, r[j].time.value);
      } else {
        StrLessIrreflexive(r[i].time.value);
      }
    }
    forall i, j | 0 <= i < j < |r| && r[i].time == r[j].time
      ensures r[i].id < r[j].id
    {
      assert Precedes(r[i], r[j]);
      if r[i].time.Some? {
        StrLessIrreflexive(r[i].time.value);
      }
    }
  }

  // ---------------------------------------------------------------- distinct ids

  lemma ConsDistinct(x: Entry, t: seq<Entry>)
    requires DistinctIds(t)
    requires forall y :: y in t ==> y.id != x.id
    ensures DistinctIds([x] + t)
  {
    var r := [x] + t;
    forall i, j | 0 <= i < |r| && 0 <= j < |r| && r[i].id == r[j].id
      ensures i == j
    {
      if i > 0 && j > 0 {
        assert r[i] == t[i - 1] && r[j] == t[j - 1];
      }
    }
  }

  lemma TailDistinct(s: seq<Entry>)
    requires DistinctIds(s) && |s| > 0
    ensures DistinctIds(s[1..])
    ensures forall y :: y in s[1..] ==> y.id != s[0].id
  {
    var t := s[1..];
    forall i, j | 0 <= i < |t| && 0 <= j < |t| && t[i].id == t[j].id
      ensures i == j
    {
      assert s[i + 1].id == s[j + 1].id;
    }
    forall y | y in t
      ensures y.id != s[0].id
    {
      var k :| 0 <= k < |t| && t[k] == y;
      assert s[k + 1] == y;
    }
  }

  lemma {:induction false} SelectDistinct(s: seq<Entry>, key: Key)
    requires DistinctIds(s)
    ensures DistinctIds(Select(s, key))
  {
    if |s| > 0 {
      TailDistinct(s);
      SelectDistinct(s[1..], key);
      if s[0].key == key {
        ConsDistinct(s[0], Select(s[1..], key));
      }
    }
  }

  lemma {:induction false} InsertDistinct(e: Entry, t: seq<Entry>)
    requires DistinctIds(t)
    requires forall y :: y in t ==> y.id != e.id
    ensures DistinctIds(Insert(e, t))
  {
    if |t| == 0 {
    } else if Precedes(e, t[0]) {
      ConsDistinct(e, t);
    } else {
      TailDistinct(t);
      InsertDistinct(e, t[1..]);
      ConsDistinct(t[0], Insert(e, t[1..]));
    }
  }

  lemma {:induction false} SortDistinct(s: seq<Entry>)
    requires DistinctIds(s)
    ensures DistinctIds(SortEntries(s))
  {
    if |s| > 0 {
      TailDistinct(s);
      SortDistinct(s[1..]);
      InsertDistinct(s[0], SortEntries(s[1..]));
    }
  }

  /** No two displayed rows share an id, so a displayed position names one row. */
  lemma DisplayDistinct(st: Store, key: Key)
    requires WellKeyed(st)
    ensures DistinctIds(DisplayList(st, key))
  {
    IncreasingIsDistinct(st.entries);
    SelectDistinct(st.entries, key);
    SortDistinct(Select(st.entries, key));
  }

  // ---------------------------------------------------------------- delete

  /** `DELETE FROM entries WHERE id = ?`. */
  function RemoveId(s: seq<Entry>, id: nat): (r: seq<Entry>)
    ensures |r| <= |s|
    ensures forall x :: x in r <==> x in s && x.id != id
  {
    if |s| == 0 then []
    else if s[0].id == id then RemoveId(s[1..], id)
    else [s[0]] + RemoveId(s[1..], id)
  }

  lemma {:induction false} SelectRemove(s: seq<Entry>, id: nat, key: Key)
    ensures Select(RemoveId(s, id), key) == RemoveId(Select(s, key), id)
  {
    if |s| > 0 {
      SelectRemove(s[1..], id, key);
      if s[0].id != id {
        assert ([s[0]] + RemoveId(s[1..], id))[1..] == RemoveId(s[1..], id);
      }
      if s[0].key == key {
        assert ([s[0]] + Select(s[1..], key))[1..] == Select(s[1..], key);
      }
    }
  }

  /** Inserting the removed row and then removing it is the same as not inserting it. */
  lemma {:induction false} RemoveInsertedSame(e: Entry, t: seq<Entry>)
    ensures RemoveId(Insert(e, t), e.id) == RemoveId(t, e.id)
  {
    if |t| > 0 {
      if Precedes(e, t[0]) {
        assert ([e] + t)[1..] == t;
      } else {
        RemoveInsertedSame(e, t[1..]);
        var u := Insert(e, t[1..]);
        assert ([t[0]] + u)[1..] == u;
      }
    }
  }

  /** A row that precedes all of a list goes to its head. */
  lemma InsertFirst(e: Entry, u: seq<Entry>)
    requires forall x :: x in u ==> Precedes(e, x)
    ensures Insert(e, u) == [e] + u
  {
    if |u| > 0 {
      assert u[0] in u;
    }
  }

  /** Removing a row and inserting a different one commute on a sorted list. */
  lemma {:induction false} RemoveInsertedOther(e: Entry, t: seq<Entry>, id: nat)
    requires e.id != id && Sorted(t)
    ensures RemoveId(Insert(e, t), id) == Insert(e, RemoveId(t, id))
  {
    if |t| == 0 {
    } else if Precedes(e, t[0]) {
      assert ([e] + t)[1..] == t;
      SortedHead(t);
      forall x | x in RemoveId(t, id)
        ensures Precedes(e, x)
      {
        PrecedesTransitive(e, t[0], x);
      }
      InsertFirst(e, RemoveId(t, id));
    } else {
      var u := Insert(e, t[1..]);
      assert ([t[0]] + u)[1..] == u;
      RemoveInsertedOther(e, t[1..], id);
      if t[0].id != id {
        var v := RemoveId(t[1..], id);
        assert ([t[0]] + v)[0] == t[0] && ([t[0]] + v)[1..] == v;
      }
    }
  }

  lemma {:induction false} SortRemove(s: seq<Entry>, id: nat)
    ensures SortEntries(RemoveId(s, id)) == RemoveId(SortEntries(s), id)
  {
    if |s| > 0 {
      SortRemove(s[1..], id);
      var sorted := SortEntries(s[1..]);
      if s[0].id == id {
        RemoveInsertedSame(s[0], sorted);
      } else {
        var v := RemoveId(s[1..], id);
        assert ([s[0]] + v)[0] == s[0] && ([s[0]] + v)[1..] == v;
        RemoveInsertedOther(s[0], sorted, id);
      }
    }
  }

  /** Deleting a row by id removes it from every listing and disturbs nothing else in any of them. */
  lemma DisplayAfterRemove(st: Store, id: nat, key: Key)
    ensures DisplayList(Store(RemoveId(st.entries, id), st.nextId), key) == RemoveId(DisplayList(st, key), id)
  {
    SelectRemove(st.entries, id, key);
    SortRemove(Select(st.entries, key), id);
  }

  /** `delete_entry_by_index`: the flag says whether `index` named a displayed row. */
  function DeleteByIndex(st: Store, key: Key, index: int): (r: (Store, bool))
    ensures r.1 <==> 1 <= index <= |DisplayList(st, key)|
    ensures !r.1 ==> r.0 == st
    ensures r.0.nextId == st.nextId
    ensures r.1 ==> forall k :: DisplayList(r.0, k) == RemoveId(DisplayList(st, k), DisplayList(st, key)[index - 1].id)
  {
    var list := DisplayList(st, key);
    if index < 1 || index > |list| then (st, false)
    else
      var id := list[index - 1].id;
      var after := Store(RemoveId(st.entries, id), st.nextId);
      assert forall k :: DisplayList(after, k) == RemoveId(DisplayList(st, k), id) by {
        forall k {
          DisplayAfterRemove(st, id, k);
        }
      }
      (after, true)
  }

  lemma {:induction false} RemoveAbsent(s: seq<Entry>, id: nat)
    requires forall x :: x in s ==> x.id != id
    ensures RemoveId(s, id) == s
  {
    if |s| > 0 {
      assert s[0] in s;
      RemoveAbsent(s[1..], id);
      assert s == [s[0]] + s[1..];
    }
  }

  /** Removing the id of position `i` from a list with distinct ids removes exactly that position. */
  lemma {:induction false} RemoveAt(s: seq<Entry>, i: nat)
    requires DistinctIds(s) && i < |s|
    ensures RemoveId(s, s[i].id) == s[..i] + s[i + 1..]
  {
    TailDistinct(s);
    if i == 0 {
      RemoveAbsent(s[1..], s[0].id);
    } else {
      assert s[1..][i - 1] == s[i];
      RemoveAt(s[1..], i - 1);
      assert s[1..][..i - 1] == s[1..i] && s[1..][i..] == s[i + 1..];
      assert s[0].id != s[i].id;
      assert [s[0]] + s[1..i] == s[..i];
    }
  }

  /** A row whose id is below every id of an increasing list can head it. */
  lemma ConsIncreasing(x: Entry, t: seq<Entry>)
    requires IdsIncreasing(t)
    requires forall y :: y in t ==> x.id < y.id
    ensures IdsIncreasing([x] + t)
  {
    var r := [x] + t;
    forall i, j | 0 <= i < j < |r|
      ensures r[i].id < r[j].id
    {
      assert r[j] == t[j - 1];
      if i > 0 {
        assert r[i] == t[i - 1];
      }
    }
  }

  /** The head of an increasing list has the smallest id. */
  lemma HeadIsLeast(s: seq<Entry>)
    requires IdsIncreasing(s) && |s| > 0
    ensures forall y :: y in s[1..] ==> s[0].id < y.id
  {
    forall y | y in s[1..]
      ensures s[0].id < y.id
    {
      var k :| 0 <= k < |s[1..]| && s[1..][k] == y;
      assert s[k + 1] == y;
    }
  }

  lemma {:induction false} RemoveKeepsIncreasing(s: seq<Entry>, id: nat)
    requires IdsIncreasing(s)
    ensures IdsIncreasing(RemoveId(s, id))
  {
    if |s| > 0 {
      RemoveKeepsIncreasing(s[1..], id);
      if s[0].id != id {
        HeadIsLeast(s);
        ConsIncreasing(s[0], RemoveId(s[1..], id));
      }
    }
  }

  /**
    A valid index deletes exactly the row shown at that position: that listing
    loses just that line and every other listing is unchanged.
   */
  lemma DeleteByIndexListings(st: Store, key: Key, index: int)
    requires WellKeyed(st)
    requires 1 <= index <= |DisplayList(st, key)|
    ensures var list := DisplayList(st, key);
      var r := DeleteByIndex(st, key, index).0;
      && DisplayList(r, key) == list[..index - 1] + list[index..]
      && (forall k :: k != key ==> DisplayList(r, k) == DisplayList(st, k))
  {
    var list := DisplayList(st, key);
    var target := list[index - 1];
    var r := DeleteByIndex(st, key, index).0;
    DisplayDistinct(st, key);
    RemoveAt(list, index - 1);
    IncreasingIsDistinct(st.entries);
    forall k | k != key
      ensures DisplayList(r, k) == DisplayList(st, k)
    {
      forall x | x in DisplayList(st, k)
        ensures x.id != target.id
      {
        if x.id == target.id {
          SameIdSameEntry(st.entries, x, target);
        }
      }
      RemoveAbsent(DisplayList(st, k), target.id);
    }
  }

  /** Deleting the id of a row of the table removes that row and nothing else. */
  lemma RemoveOneRow(s: seq<Entry>, x: Entry)
    requires IdsIncreasing(s) && x in s
    ensures |RemoveId(s, x.id)| == |s| - 1
    ensures multiset(RemoveId(s, x.id)) == multiset(s) - multiset{x}
    ensures IdsIncreasing(RemoveId(s, x.id))
  {
    IncreasingIsDistinct(s);
    var p :| 0 <= p < |s| && s[p] == x;
    RemoveAt(s, p);
    Splice(s, p);
    RemoveKeepsIncreasing(s, x.id);
  }

  /** Cutting position `p` out of a list removes one copy of its element. */
  lemma Splice(s: seq<Entry>, p: nat)
    requires p < |s|
    ensures |s[..p] + s[p + 1..]| == |s| - 1
    ensures multiset(s[..p] + s[p + 1..]) == multiset(s) - multiset{s[p]}
  {
    assert s == s[..p] + [s[p]] + s[p + 1..];
    assert multiset(s) == multiset(s[..p]) + multiset{s[p]} + multiset(s[p + 1..]);
  }

  /** ... and the table loses just that one row, keeping its keys well formed. */
  lemma DeleteByIndexTable(st: Store, key: Key, index: int)
    requires WellKeyed(st)
    requires 1 <= index <= |DisplayList(st, key)|
    ensures var target := DisplayList(st, key)[index - 1];
      var r := DeleteByIndex(st, key, index).0;
      && |r.entries| == |st.entries| - 1
      && multiset(r.entries) == multiset(st.entries) - multiset{target}
      && WellKeyed(r)
  {
    var target := DisplayList(st, key)[index - 1];
    var r := DeleteByIndex(st, key, index).0;
    assert target in DisplayList(st, key);
    assert r == Store(RemoveId(st.entries, target.id), st.nextId);
    RemoveOneRow(st.entries, target);
    forall i | 0 <= i < |r.entries|
      ensures r.entries[i].id < r.nextId
    {
      assert r.entries[i] in st.entries;
    }
  }

  // ---------------------------------------------------------------- edit

  /** The effect of `UPDATE entries SET content = ? WHERE id = ?` on one row. */
  function Rewrite(e: Entry, id: nat, content: string): Entry {
    if e.id == id then e.(content := content) else e
  }

  function SetContent(s: seq<Entry>, id: nat, content: string): (r: seq<Entry>)
    ensures |r| == |s|
  {
    if |s| == 0 then [] else [Rewrite(s[0], id, content)] + SetContent(s[1..], id, content)
  }

  lemma {:induction false} SetContentAt(s: seq<Entry>, id: nat, content: string, i: nat)
    requires i < |s|
    ensures SetContent(s, id, content)[i] == Rewrite(s[i], id, content)
  {
    if i > 0 {
      SetContentAt(s[1..], id, content, i - 1);
    }
  }

  lemma {:induction false} SelectSetContent(s: seq<Entry>, id: nat, content: string, key: Key)
    ensures Select(SetContent(s, id, content), key) == SetContent(Select(s, key), id, content)
  {
    if |s| > 0 {
      SelectSetContent(s[1..], id, content, key);
      var t := SetContent(s[1..], id, content);
      assert ([Rewrite(s[0], id, content)] + t)[1..] == t;
      if s[0].key == key {
        assert ([s[0]] + Select(s[1..], key))[1..] == Select(s[1..], key);
      }
    }
  }

  /** The order ignores content, so rewriting content commutes with insertion. */
  lemma {:induction false} InsertSetContent(e: Entry, t: seq<Entry>, id: nat, content: string)
    ensures Insert(Rewrite(e, id, content), SetContent(t, id, content)) == SetContent(Insert(e, t), id, content)
  {
    if |t| > 0 {
      var e' := Rewrite(e, id, content);
      var t' := SetContent(t, id, content);
      assert t'[0] == Rewrite(t[0], id, content) && t'[1..] == SetContent(t[1..], id, content);
      assert Precedes(e', t'[0]) == Precedes(e, t[0]);
      if Precedes(e, t[0]) {
        assert ([e] + t)[0] == e && ([e] + t)[1..] == t;
      } else {
        InsertSetContent(e, t[1..], id, content);
        var u := Insert(e, t[1..]);
        assert ([t[0]] + u)[0] == t[0] && ([t[0]] + u)[1..] == u;
      }
    }
  }

  lemma {:induction false} SortSetContent(s: seq<Entry>, id: nat, content: string)
    ensures SortEntries(SetContent(s, id, content)) == SetContent(SortEntries(s), id, content)
  {
    if |s| > 0 {
      SortSetContent(s[1..], id, content);
      var t := SetContent(s[1..], id, content);
      assert ([Rewrite(s[0], id, content)] + t)[0] == Rewrite(s[0], id, content);
      assert ([Rewrite(s[0], id, content)] + t)[1..] == t;
      InsertSetContent(s[0], SortEntries(s[1..]), id, content);
    }
  }

  /** Rewriting a row's content rewrites it in place in every listing and moves nothing. */
  lemma DisplayAfterSetContent(st: Store, id: nat, content: string, key: Key)
    ensures DisplayList(Store(SetContent(st.entries, id, content), st.nextId), key)
         == SetContent(DisplayList(st, key), id, content)
  {
    SelectSetContent(st.entries, id, content, key);
    SortSetContent(Select(st.entries, key), id, content);
  }

  /** `edit_entry_by_index`: the flag says whether `index` named a displayed row. */
  function EditByIndex(st: Store, key: Key, index: int, content: string): (r: (Store, bool))
    ensures r.1 <==> 1 <= index <= |DisplayList(st, key)|
    ensures !r.1 ==> r.0 == st
    ensures r.0.nextId == st.nextId
    ensures r.1 ==> forall k :: DisplayList(r.0, k) == SetContent(DisplayList(st, k), DisplayList(st, key)[index - 1].id, content)
  {
    var list := DisplayList(st, key);
    if index < 1 || index > |list| then (st, false)
    else
      var id := list[index - 1].id;
      var after := Store(SetContent(st.entries, id, content), st.nextId);
      assert forall k :: DisplayList(after, k) == SetContent(DisplayList(st, k), id, content) by {
        forall k {
          DisplayAfterSetContent(st, id, content, k);
        }
      }
      (after, true)
  }

  lemma SetContentAbsent(s: seq<Entry>, id: nat, content: string)
    requires forall x :: x in s ==> x.id != id
    ensures SetContent(s, id, content) == s
  {
    forall i | 0 <= i < |s|
      ensures SetContent(s, id, content)[i] == s[i]
    {
      SetContentAt(s, id, content, i);
    }
  }

  /** With distinct ids, rewriting the id of position `i` rewrites exactly that position. */
  lemma SetContentOne(s: seq<Entry>, i: nat, content: string)
    requires DistinctIds(s) && i < |s|
    ensures SetContent(s, s[i].id, content) == s[i := s[i].(content := content)]
  {
    forall j | 0 <= j < |s|
      ensures SetContent(s, s[i].id, content)[j] == s[i := s[i].(content := content)][j]
    {
      SetContentAt(s, s[i].id, content, j);
    }
  }

  /**
    A valid index rewrites the content of exactly the row shown at that
    position: in its listing that line keeps its place and changes only its
    content, and every other listing is unchanged.
   */
  lemma EditByIndexListings(st: Store, key: Key, index: int, content: string)
    requires WellKeyed(st)
    requires 1 <= index <= |DisplayList(st, key)|
    ensures var list := DisplayList(st, key);
      var r := EditByIndex(st, key, index, content).0;
      && DisplayList(r, key) == list[index - 1 := list[index - 1].(content := content)]
      && (forall k :: k != key ==> DisplayList(r, k) == DisplayList(st, k))
  {
    var list := DisplayList(st, key);
    DisplayDistinct(st, key);
    SetContentOne(list, index - 1, content);
    forall k | k != key
      ensures DisplayList(EditByIndex(st, key, index, content).0, k) == DisplayList(st, k)
    {
      EditOtherListing(st, key, index, content, k);
    }
  }

  /** The row an edit targets belongs to its own listing only, so another listing is left alone. */
  lemma EditOtherListing(st: Store, key: Key, index: int, content: string, k: Key)
    requires WellKeyed(st)
    requires 1 <= index <= |DisplayList(st, key)|
    requires k != key
    ensures DisplayList(EditByIndex(st, key, index, content).0, k) == DisplayList(st, k)
  {
    var target := DisplayList(st, key)[index - 1];
    assert target in DisplayList(st, key);
    IncreasingIsDistinct(st.entries);
    forall x | x in DisplayList(st, k)
      ensures x.id != target.id
    {
      if x.id == target.id {
        SameIdSameEntry(st.entries, x, target);
      }
    }
    SetContentAbsent(DisplayList(st, k), target.id, content);
  }

  /**
    ... and in the table every row keeps its id, key and time, the chosen row
    gets the new content and every other row is unchanged.
   */
  lemma EditByIndexTable(st: Store, key: Key, index: int, content: string)
    requires WellKeyed(st)
    requires 1 <= index <= |DisplayList(st, key)|
    ensures var target := DisplayList(st, key)[index - 1];
      var r := EditByIndex(st, key, index, content).0;
      && |r.entries| == |st.entries|
      && (forall i :: 0 <= i < |st.entries| ==>
            && r.entries[i].id == st.entries[i].id
            && r.entries[i].key == st.entries[i].key
            && r.entries[i].time == st.entries[i].time
            && (st.entries[i] == target ==> r.entries[i].content == content)
            && (st.entries[i] != target ==> r.entries[i] == st.entries[i]))
  {
    var target := DisplayList(st, key)[index - 1];
    var r := EditByIndex(st, key, index, content).0;
    assert target in DisplayList(st, key);
    assert r == Store(SetContent(st.entries, target.id, content), st.nextId);
    IncreasingIsDistinct(st.entries);
    forall i | 0 <= i < |st.entries|
      ensures r.entries[i] == Rewrite(st.entries[i], target.id, content)
      ensures st.entries[i] != target ==> r.entries[i] == st.entries[i]
    {
      SetContentAt(st.entries, target.id, content, i);
      if st.entries[i].id == target.id {
        SameIdSameEntry(st.entries, st.entries[i], target);
      }
    }
  }

  /** `after` is `before` with the content of the row `target` replaced and every other row as it was. */
  predicate RewritesOnly(before: seq<Entry>, after: seq<Entry>, target: Entry, content: string) {
    && |after| == |before|
    && forall i :: 0 <= i < |before| ==>
         after[i] == if before[i] == target then before[i].(content := content) else before[i]
  }

  /** An edit keeps the ids where they were, so the table stays well keyed. */
  lemma EditByIndexWellKeyed(st: Store, key: Key, index: int, content: string)
    requires WellKeyed(st)
    ensures WellKeyed(EditByIndex(st, key, index, content).0)
  {
    var r := EditByIndex(st, key, index, content).0;
    if 1 <= index <= |DisplayList(st, key)| {
      EditByIndexTable(st, key, index, content);
      assert forall i :: 0 <= i < |r.entries| ==> r.entries[i].id == st.entries[i].id;
    }
  }
}
