/** src/db.rs: the `diary_entries` table of D1 and the four statements the
    diary runs against it. The table is a map from the `date` primary key to
    its row; the SQL statements become functions of that map, and the one
    write, the upsert, is a method on the table. */
module Db {
  import opened Wrappers
  import opened Strings
  import opened Calendar
  import opened Time
  import opened Models

  /** The contents of `diary_entries`, keyed by the `date` column. */
  type Rows = map<string, DiaryEntry>

  /** Every row is stored under its own date: `date` is the primary key. */
  predicate Keyed(rows: Rows)
  {
    forall k :: k in rows ==> rows[k].date == k
  }

  /** `get_entry`: `SELECT ... WHERE date = ?1`, the row whose date is the
      given one, if there is such a row. */
  function GetEntry(rows: Rows, date: string): (r: Option<DiaryEntry>)
    requires Keyed(rows)
    ensures r.Some? ==> r.value in rows.Values && r.value.date == date
    ensures r.None? ==> forall k :: k in rows ==> rows[k].date != date
  {
    if date in rows then Some(rows[date]) else None
  }

  /** The table after `INSERT ... VALUES (today, content, now, now) ON
      CONFLICT(date) DO UPDATE SET content = excluded.content, updated_at =
      excluded.updated_at`. */
  function Upserted(rows: Rows, today: string, content: string, now: string): (r: Rows)
    ensures r.Keys == rows.Keys + {today}
    ensures forall k :: k in rows && k != today ==> r[k] == rows[k]
    ensures today !in rows ==> r[today] == DiaryEntry(today, content, now, now)
    ensures today in rows ==>
              r[today] == DiaryEntry(rows[today].date, content, rows[today].createdAt, now)
    ensures Keyed(rows) ==> Keyed(r)
  {
    if today in rows then
      var existing := rows[today];
      rows[today := DiaryEntry(existing.date, content, existing.createdAt, now)]
    else
      rows[today := DiaryEntry(today, content, now, now)]
  }

  /** The `diary_entries` table as a mutable store. */
  class EntryTable {
    var rows: Rows

    ghost predicate Valid()
      reads this
    {
      Keyed(rows)
    }

    constructor ()
      ensures rows == map[] && Valid()
    {
      rows := map[];
    }

    /** `upsert_today_entry`: the key is `today_jst()` and the timestamp
        `now_iso8601()`, two readings of the host clock. */
    method UpsertTodayEntry(content: string, todayMillis: int, nowMillis: int)
      requires ClockReadable(todayMillis) && ClockReadable(nowMillis)
      modifies this
      ensures rows == Upserted(old(rows), TodayJst(todayMillis), content, NowIso8601(nowMillis))
      ensures old(Valid()) ==> Valid()
    {
      var today := TodayJst(todayMillis);
      var now := NowIso8601(nowMillis);
      RunUpsert(today, content, now);
    }

    /** The statement once its three parameters are bound. */
    method RunUpsert(today: string, content: string, now: string)
      modifies this
      ensures rows == Upserted(old(rows), today, content, now)
      ensures old(Valid()) ==> Valid()
    {
      if today in rows {
        var existing := rows[today];
        rows := rows[today := DiaryEntry(existing.date, content, existing.createdAt, now)];
      } else {
        rows := rows[today := DiaryEntry(today, content, now, now)];
      }
    }
  }

  /** Saving twice on one day: the second save replaces the text and the
      update time and keeps the creation time of the first. */
  lemma UpsertTwice(rows: Rows, today: string, c1: string, t1: string, c2: string, t2: string)
    requires Keyed(rows)
    ensures var r2 := Upserted(Upserted(rows, today, c1, t1), today, c2, t2);
      r2[today] == DiaryEntry(today, c2, if today in rows then rows[today].createdAt else t1, t2)
  {
  }

  /** Re-saving the text already stored changes only the update time. */
  lemma UpsertSameContent(rows: Rows, today: string, content: string, now: string)
    requires today in rows && rows[today].content == content
    ensures Upserted(rows, today, content, now) == rows[today := rows[today].(updatedAt := now)]
  {
  }

  // ---------------------------------------------------------------------
  // ORDER BY date DESC
  // ---------------------------------------------------------------------

  /** `m` is the largest of `s` in string order. */
  predicate IsMaxOf(m: string, s: set<string>)
  {
    forall x :: x in s && x != m ==> LexLess(x, m)
  }

  /** A finite non-empty set of strings has a largest element. */
  lemma {:induction false} MaxExists(s: set<string>)
    requires s != {}
    ensures exists m :: m in s && IsMaxOf(m, s)
    decreases |s|
  {
    var x :| x in s;
    if s != {x} {
      var t := s - {x};
      MaxExists(t);
      var m :| m in t && IsMaxOf(m, t);
      if LexLess(x, m) {
        assert IsMaxOf(m, s);
      } else {
        LexTotal(x, m);
        forall y | y in s && y != x
          ensures LexLess(y, x)
        {
          if y != m {
            LexTransitive(y, m, x);
          }
        }
        assert IsMaxOf(x, s);
      }
    } else {
      assert IsMaxOf(x, s);
    }
  }

  /** Strictly decreasing in string order. */
  predicate Descending(r: seq<string>)
  {
    forall i, j :: 0 <= i < j < |r| ==> LexLess(r[j], r[i])
  }

  lemma PrependMax(m: string, s: set<string>, rest: seq<string>)
    requires m in s && IsMaxOf(m, s) && Descending(rest)
    requires forall i :: 0 <= i < |rest| ==> rest[i] in s - {m}
    ensures Descending([m] + rest)
  {
    var r := [m] + rest;
    forall i, j | 0 <= i < j < |r|
      ensures LexLess(r[j], r[i])
    {
      assert r[j] == rest[j - 1];
      if i > 0 {
        assert r[i] == rest[i - 1];
      }
    }
  }

  /** The strings of `s`, largest first. */
  ghost function DatesDescending(s: set<string>): (r: seq<string>)
    ensures |r| == |s|
    ensures forall i :: 0 <= i < |r| ==> r[i] in s
    ensures forall x :: x in s ==> x in r
    ensures Descending(r)
    decreases |s|
  {
    if s == {} then []
    else
      MaxExists(s);
      var m :| m in s && IsMaxOf(m, s);
      var rest := DatesDescending(s - {m});
      PrependMax(m, s, rest);
      [m] + rest
  }

  // ---------------------------------------------------------------------
  // LIMIT
  // ---------------------------------------------------------------------

  /** How many of `n` rows `LIMIT limit` lets through: SQLite reads a
      negative limit as no limit at all. */
  function Cap(limit: int, n: nat): (c: nat)
    ensures c <= n
    ensures limit < 0 ==> c == n
    ensures 0 <= limit ==> c <= limit && (c == limit || c == n)
  {
    if limit < 0 || n <= limit then n else limit
  }

  /** Newest first: strictly decreasing dates. */
  predicate NewestFirst(r: seq<DiaryEntry>)
  {
    forall i, j :: 0 <= i < j < |r| ==> LexLess(r[j].date, r[i].date)
  }

  /** The rows keyed by `keys`, `ORDER BY date DESC LIMIT limit`. */
  ghost function Listing(rows: Rows, keys: set<string>, limit: int): (r: seq<DiaryEntry>)
    requires Keyed(rows) && keys <= rows.Keys
    ensures |r| == Cap(limit, |keys|)
    ensures forall i :: 0 <= i < |r| ==> r[i].date in keys && rows[r[i].date] == r[i]
    ensures NewestFirst(r)
  {
    var dates := DatesDescending(keys);
    var n := Cap(limit, |dates|);
    var r := seq(n, i requires 0 <= i < n => rows[dates[i]]);
    assert forall i :: 0 <= i < n ==> r[i].date == dates[i];
    r
  }

  /** A key the listing leaves out is older than every row it lists, and
      when the limit is not reached nothing is left out. */
  lemma ListingLargest(rows: Rows, keys: set<string>, limit: int, k: string)
    requires Keyed(rows) && keys <= rows.Keys && k in keys
    ensures var r := Listing(rows, keys, limit);
      (forall i :: 0 <= i < |r| ==> r[i].date != k) ==>
        |r| < |keys| && forall i :: 0 <= i < |r| ==> LexLess(k, r[i].date)
  {
    var dates := DatesDescending(keys);
    var r := Listing(rows, keys, limit);
    var n := |r|;
    assert forall i :: 0 <= i < n ==> r[i].date == dates[i];
    var j :| 0 <= j < |dates| && dates[j] == k;
    assert j < n ==> r[j].date == k;
  }

  /** The dates before `today`, in string order. */
  ghost function PastKeys(rows: Rows, today: string): (ks: set<string>)
    ensures ks <= rows.Keys
  {
    set k | k in rows && LexLess(k, today)
  }

  /** `list_past_entries`: `WHERE date < ?1 ORDER BY date DESC LIMIT ?2`
      with `?1` today's date. */
  ghost function ListPastEntries(rows: Rows, today: string, limit: int): (r: seq<DiaryEntry>)
    requires Keyed(rows)
    ensures 0 <= limit ==> |r| <= limit
    ensures forall i :: 0 <= i < |r| ==> LexLess(r[i].date, today) && r[i].date in rows && rows[r[i].date] == r[i]
    ensures forall i :: 0 <= i < |r| ==> r[i].date != today
    ensures NewestFirst(r)
  {
    var r := Listing(rows, PastKeys(rows, today), limit);
    LexIrreflexive(today);
    r
  }

  /** `list_all_entries`: `ORDER BY date DESC LIMIT ?1`. */
  ghost function ListAllEntries(rows: Rows, limit: int): (r: seq<DiaryEntry>)
    requires Keyed(rows)
    ensures |r| == Cap(limit, |rows|)
    ensures forall i :: 0 <= i < |r| ==> r[i].date in rows && rows[r[i].date] == r[i]
    ensures NewestFirst(r)
  {
    assert |rows.Keys| == |rows|;
    Listing(rows, rows.Keys, limit)
  }

  /** A past row that `list_past_entries` leaves out is older than every
      row it returns, and the list is cut only when it holds `limit` rows. */
  lemma PastEntriesAreLatest(rows: Rows, today: string, limit: int, k: string)
    requires Keyed(rows) && k in rows && LexLess(k, today)
    ensures var r := ListPastEntries(rows, today, limit);
      (forall i :: 0 <= i < |r| ==> r[i].date != k) ==>
        limit == |r| && forall i :: 0 <= i < |r| ==> LexLess(k, r[i].date)
  {
    ListingLargest(rows, PastKeys(rows, today), limit, k);
  }

  /** A row that `list_all_entries` leaves out is older than every row it
      returns. */
  lemma AllEntriesAreLatest(rows: Rows, limit: int, k: string)
    requires Keyed(rows) && k in rows
    ensures var r := ListAllEntries(rows, limit);
      (forall i :: 0 <= i < |r| ==> r[i].date != k) ==>
        limit == |r| && forall i :: 0 <= i < |r| ==> LexLess(k, r[i].date)
  {
    assert |rows.Keys| == |rows|;
    ListingLargest(rows, rows.Keys, limit, k);
  }

  /** When every key is a valid date, newest first in string order is
      newest first in calendar order. */
  lemma NewestFirstIsChronological(r: seq<DiaryEntry>)
    requires NewestFirst(r)
    requires forall i :: 0 <= i < |r| ==> IsValidDate(r[i].date)
    ensures forall i, j :: 0 <= i < j < |r| ==>
      IsValidDate(r[i].date) && IsValidDate(r[j].date) &&
      DateLess(ParseDate(r[j].date).value, ParseDate(r[i].date).value)
  {
    forall i, j | 0 <= i < j < |r|
      ensures DateLess(ParseDate(r[j].date).value, ParseDate(r[i].date).value)
    {
      DateStringOrder(r[j].date, r[i].date);
    }
  }
}
