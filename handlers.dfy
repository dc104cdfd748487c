/** src/handlers.rs: the JSON API handlers of the diary. What the
    collaborators answer (the D1 table, the KV counter, the decoded JSON
    body, the Turnstile verdict, whether a write fails, the host clock) is
    passed in; the two writes of `post_today` are the methods of
    `Db.EntryTable` and `RateLimit.RateLimitStore`. */
module Handlers {
  import opened Wrappers
  import opened Strings
  import opened Calendar
  import opened Time
  import opened Models
  import opened Http
  import opened Db
  import opened RateLimit

  /** `MAX_CONTENT_LENGTH`, counted in characters. */
  const MAX_CONTENT_LENGTH: nat := 10000
  /** How many past entries `get_entries` asks for. */
  const LIST_LIMIT: int := 100

  // ---------------------------------------------------------------------
  // GET /api/today
  // ---------------------------------------------------------------------

  /** `get_today`: the row under today's JST date, or an empty body; either
      way today's entry is editable. `db` is the table, or `Fault` when the
      query fails; `today` is what `today_jst()` reads off the clock. */
  function GetToday(db: Result<Rows>, today: string): (r: Reply)
    requires db.Ok? ==> Keyed(db.value)
    ensures r.status == 200 || r.status == 500
    ensures r.status == 500 <==> db.Fault?
    ensures r.status == 500 ==> r.body == ErrorBody(ErrorResponse.InternalError())
    ensures r.status == 200 ==> CanEdit(r.body) == Some(true)
    ensures db.Ok? && today in db.value ==>
              r.body == EntryBody(DiaryEntryResponse.FromEntry(db.value[today], true))
    ensures db.Ok? && today !in db.value ==>
              r.body == EmptyTodayBody(TodayEmptyResponse(today, None, true))
  {
    match db
    case Fault => Reply(500, ErrorBody(ErrorResponse.InternalError()))
    case Ok(rows) =>
      match GetEntry(rows, today)
      case Some(entry) => Reply(200, EntryBody(DiaryEntryResponse.FromEntry(entry, true)))
      case None => Reply(200, EmptyTodayBody(TodayEmptyResponse(today, None, true)))
  }

  /** After today's save, `/api/today` read on the same JST day shows the
      saved text under today's date. */
  lemma TodayShowsSavedText(rows: Rows, content: string, now: string, saveMillis: int, readMillis: int)
    requires Keyed(rows)
    requires 0 <= saveMillis <= LAST_FOUR_DIGIT_MILLIS && 0 <= readMillis <= LAST_FOUR_DIGIT_MILLIS
    requires (saveMillis + JST_OFFSET_MILLIS) / MILLIS_PER_DAY == (readMillis + JST_OFFSET_MILLIS) / MILLIS_PER_DAY
    ensures GetToday(Ok(Upserted(rows, TodayJst(saveMillis), content, now)), TodayJst(readMillis))
            == Reply(200, EntryBody(DiaryEntryResponse(TodayJst(saveMillis), content, true)))
  {
    SameTodayIffSameJstDay(saveMillis, readMillis);
  }

  // ---------------------------------------------------------------------
  // GET /api/entries and GET /api/entries/:date
  // ---------------------------------------------------------------------

  /** `get_entries`: the latest 100 entries before `today`, newest first, as
      previews. */
  ghost function GetEntries(db: Result<Rows>, today: string): (r: Reply)
    requires db.Ok? ==> Keyed(db.value)
    ensures r.status == 200 || r.status == 500
    ensures r.status == 500 <==> db.Fault?
    ensures r.status == 500 ==> r.body == ErrorBody(ErrorResponse.InternalError())
    ensures r.status == 200 ==> r.body.ListBody? && |r.body.list.entries| <= LIST_LIMIT
    ensures r.status == 200 ==> forall i :: 0 <= i < |r.body.list.entries| ==>
              r.body.list.entries[i].date in db.value
              && LexLess(r.body.list.entries[i].date, today)
              && r.body.list.entries[i] == DiaryEntrySummary.FromEntry(db.value[r.body.list.entries[i].date])
    ensures r.status == 200 ==> forall i, j :: 0 <= i < j < |r.body.list.entries| ==>
              LexLess(r.body.list.entries[j].date, r.body.list.entries[i].date)
  {
    match db
    case Fault => Reply(500, ErrorBody(ErrorResponse.InternalError()))
    case Ok(rows) =>
      var entries := ListPastEntries(rows, today, LIST_LIMIT);
      var previews := seq(|entries|, i requires 0 <= i < |entries| => DiaryEntrySummary.FromEntry(entries[i]));
      assert forall i :: 0 <= i < |previews| ==> previews[i].date == entries[i].date;
      Reply(200, ListBody(DiaryListResponse(previews)))
  }

  /** The list holds the latest past entries: a past row without a preview
      means the list is full and that row is older than every listed one. */
  lemma GetEntriesAreLatest(db: Result<Rows>, today: string, k: string)
    requires db.Ok? && Keyed(db.value) && k in db.value && LexLess(k, today)
    ensures var e := GetEntries(db, today).body.list.entries;
      (forall i :: 0 <= i < |e| ==> e[i].date != k) ==>
        |e| == LIST_LIMIT && forall i :: 0 <= i < |e| ==> LexLess(k, e[i].date)
  {
    var entries := ListPastEntries(db.value, today, LIST_LIMIT);
    var e := GetEntries(db, today).body.list.entries;
    assert |e| == |entries| && forall i :: 0 <= i < |e| ==> e[i].date == entries[i].date;
    PastEntriesAreLatest(db.value, today, LIST_LIMIT, k);
  }

  /** `get_entry_by_date`: a malformed date is refused before the table is
      read; a found entry is editable exactly when its date is `today`. */
  function GetEntryByDate(db: Result<Rows>, date: Option<string>, today: string): (r: Reply)
    requires db.Ok? ==> Keyed(db.value)
    ensures date.None? ==> r == Reply(400, ErrorBody(ErrorResponse.BadRequest("Date parameter required")))
    ensures date.Some? && !IsValidDate(date.value) ==>
              r == Reply(400, ErrorBody(ErrorResponse.BadRequest("Invalid date format. Use YYYY-MM-DD.")))
    ensures r.status == 500 <==> date.Some? && IsValidDate(date.value) && db.Fault?
    ensures r.status == 404 <==> date.Some? && IsValidDate(date.value) && db.Ok? && date.value !in db.value
    ensures r.status == 200 <==> date.Some? && IsValidDate(date.value) && db.Ok? && date.value in db.value
    ensures r.status == 200 ==>
              r.body == EntryBody(DiaryEntryResponse.FromEntry(db.value[date.value], date.value == today))
    ensures r.status == 404 ==> r.body == ErrorBody(ErrorResponse.NotFound())
    ensures r.status == 500 ==> r.body == ErrorBody(ErrorResponse.InternalError())
  {
    match date
    case None => Reply(400, ErrorBody(ErrorResponse.BadRequest("Date parameter required")))
    case Some(d) =>
      if !IsValidDate(d) then
        Reply(400, ErrorBody(ErrorResponse.BadRequest("Invalid date format. Use YYYY-MM-DD.")))
      else
        match db
        case Fault => Reply(500, ErrorBody(ErrorResponse.InternalError()))
        case Ok(rows) =>
          match GetEntry(rows, d)
          case Some(entry) => Reply(200, EntryBody(DiaryEntryResponse.FromEntry(entry, d == today)))
          case None => Reply(404, ErrorBody(ErrorResponse.NotFound()))
  }

  /** A rejected date never depends on the table or on whether D1 is up. */
  lemma InvalidDateIgnoresTable(db: Result<Rows>, db': Result<Rows>, date: string, today: string)
    requires (db.Ok? ==> Keyed(db.value)) && (db'.Ok? ==> Keyed(db'.value))
    requires !IsValidDate(date)
    ensures GetEntryByDate(db, Some(date), today) == GetEntryByDate(db', Some(date), today)
  {
  }

  /** With `today` read off the clock as `is_today` reads it, a past or
      future entry is read-only; only the entry of the JST calendar day of
      the request is editable. */
  lemma EditableExactlyToday(db: Result<Rows>, date: string, millis: int)
    requires 0 <= millis <= LAST_FOUR_DIGIT_MILLIS && (db.Ok? ==> Keyed(db.value))
    ensures var r := GetEntryByDate(db, Some(date), TodayJst(millis));
      r.status == 200 ==>
        (CanEdit(r.body) == Some(true)
         <==> ParseDate(date).value == CivilFromDays((millis + JST_OFFSET_MILLIS) / MILLIS_PER_DAY))
  {
    IsTodayMeansJstDate(date, millis);
  }

  // ---------------------------------------------------------------------
  // POST /api/today
  // ---------------------------------------------------------------------

  /** `body.content.replace('\r', "")`: CRLF line ends become LF. */
  function StripCarriageReturns(s: string): (r: string)
    ensures '\r' !in r
    ensures |r| == |s| - Count(s, '\r')
  {
    RemovedLength(s, '\r');
    ReplaceChar(s, '\r', "")
  }

  lemma {:induction false} RemovedLength(s: string, c: char)
    ensures |ReplaceChar(s, c, "")| == |s| - Count(s, c)
  {
    if |s| > 0 {
      RemovedLength(s[1..], c);
    }
  }

  /** What the guards of `post_today` decide before anything is written. */
  datatype Decision = Refuse(status: nat, error: ErrorResponse) | Accept(content: string)

  /** The guards of `post_today` in their order: the rate limit, the JSON
      body, the Turnstile token, its verdict, then the length of the text
      once its carriage returns are gone. `body` is `None` when the body is
      not the expected JSON; `verdict` is Turnstile's answer, `Fault` when the
      call fails. */
  function PostDecision(limited: bool, body: Option<PostTodayRequest>, verdict: Result<bool>): (d: Decision)
    ensures limited ==> d == Refuse(429, ErrorResponse.BadRequest("Too Many Requests"))
    ensures d.Accept? <==>
              !limited && body.Some? && body.value.turnstileToken.Some? && verdict == Ok(true)
              && |StripCarriageReturns(body.value.content)| <= MAX_CONTENT_LENGTH
    ensures d.Accept? ==> d.content == StripCarriageReturns(body.value.content)
    ensures d.Accept? ==> '\r' !in d.content && |d.content| <= MAX_CONTENT_LENGTH
    ensures d.Refuse? ==> d.status == 400 || d.status == 429 || d.status == 500
    ensures d.Refuse? && d.status == 500 <==>
              !limited && body.Some? && body.value.turnstileToken.Some? && verdict.Fault?
    ensures d.Refuse? && d.status == 500 ==> d.error == ErrorResponse.InternalError()
    ensures d.Refuse? && d.status != 500 ==> d.error.code == "BAD_REQUEST"
  {
    if limited then Refuse(429, ErrorResponse.BadRequest("Too Many Requests"))
    else if body.None? then Refuse(400, ErrorResponse.BadRequest("Invalid JSON"))
    else if body.value.turnstileToken.None? then Refuse(400, ErrorResponse.BadRequest("Turnstile token required"))
    else
      match verdict
      case Ok(false) => Refuse(400, ErrorResponse.BadRequest("Turnstile verification failed"))
      case Fault => Refuse(500, ErrorResponse.InternalError())
      case Ok(true) =>
        var content := StripCarriageReturns(body.value.content);
        if |content| > MAX_CONTENT_LENGTH then
          Refuse(400, ErrorResponse.BadRequest("Content too long. Maximum 10000 characters allowed."))
        else Accept(content)
  }

  /** Each guard answers before the later ones are consulted. */
  lemma GuardsInOrder(body: Option<PostTodayRequest>, verdict: Result<bool>, request: PostTodayRequest)
    ensures PostDecision(false, None, verdict) == Refuse(400, ErrorResponse.BadRequest("Invalid JSON"))
    ensures request.turnstileToken.None? ==>
              PostDecision(false, Some(request), verdict)
              == Refuse(400, ErrorResponse.BadRequest("Turnstile token required"))
    ensures request.turnstileToken.Some? ==>
              PostDecision(false, Some(request), Ok(false))
              == Refuse(400, ErrorResponse.BadRequest("Turnstile verification failed"))
  {
  }

  /** With every earlier guard passed, a text without carriage returns is
      accepted exactly when it has at most 10 000 characters. */
  lemma LengthLimit(content: string, token: string)
    requires '\r' !in content
    ensures PostDecision(false, Some(PostTodayRequest(content, Some(token))), Ok(true)).Accept?
            <==> |content| <= MAX_CONTENT_LENGTH
  {
    ReplaceCharAbsent(content, '\r', "");
  }

  /** Carriage returns do not count: 10 000 characters sent with CRLF line
      ends are accepted, and the text saved is the one with LF line ends. */
  lemma CarriageReturnsNotCounted(line: string, token: string)
    requires '\r' !in line && '\n' !in line && |line| <= MAX_CONTENT_LENGTH - 1
    ensures var sent := line + "\r\n";
      PostDecision(false, Some(PostTodayRequest(sent, Some(token))), Ok(true)) == Accept(line + "\n")
  {
    var sent := line + "\r\n";
    ReplaceCharAppend(line, "\r\n", '\r', "");
    ReplaceCharAbsent(line, '\r', "");
    assert "\r\n"[1..] == "\n";
    assert ReplaceChar("\n", '\r', "") == "\n";
    assert ReplaceChar("\r\n", '\r', "") == "\n";
  }

  /** The decision for a client whose counter store is `kv`. */
  function Decide(kv: Kv, ipHeader: Option<string>, body: Option<PostTodayRequest>, verdict: Result<bool>): Decision
  {
    PostDecision(CheckRateLimit(kv, GetClientIp(ipHeader)), body, verdict)
  }

  /** `post_today`. `ipHeader` is the `CF-Connecting-IP` header; the table
      key, the row timestamp and the response date are three readings of
      the clock, as in the source. */
  method PostToday(table: EntryTable, limiter: RateLimitStore, ipHeader: Option<string>,
                   body: Option<PostTodayRequest>, verdict: Result<bool>,
                   saveFails: bool, incrementFails: bool,
                   keyMillis: int, stampMillis: int, responseMillis: int)
    returns (r: Reply)
    requires ClockReadable(keyMillis) && ClockReadable(stampMillis) && ClockReadable(responseMillis)
    modifies table, limiter
    ensures Decide(old(limiter.kv), ipHeader, body, verdict).Refuse? ==>
              r == Reply(Decide(old(limiter.kv), ipHeader, body, verdict).status,
                         ErrorBody(Decide(old(limiter.kv), ipHeader, body, verdict).error))
    ensures Decide(old(limiter.kv), ipHeader, body, verdict).Accept? && saveFails ==>
              r == Reply(500, ErrorBody(ErrorResponse.InternalError()))
    ensures Decide(old(limiter.kv), ipHeader, body, verdict).Refuse? || saveFails ==>
              table.rows == old(table.rows) && limiter.kv == old(limiter.kv)
    ensures Decide(old(limiter.kv), ipHeader, body, verdict).Accept? && !saveFails ==>
              r == Reply(201, EntryBody(DiaryEntryResponse(TodayJst(responseMillis),
                                                           Decide(old(limiter.kv), ipHeader, body, verdict).content, true)))
    ensures Decide(old(limiter.kv), ipHeader, body, verdict).Accept? && !saveFails ==>
              table.rows == Upserted(old(table.rows), TodayJst(keyMillis),
                                     Decide(old(limiter.kv), ipHeader, body, verdict).content, NowIso8601(stampMillis))
    ensures Decide(old(limiter.kv), ipHeader, body, verdict).Accept? && !saveFails ==>
              limiter.kv == if incrementFails then old(limiter.kv) else Incremented(old(limiter.kv), GetClientIp(ipHeader))
  {
    var ip := GetClientIp(ipHeader);
    var d := Decide(limiter.kv, ipHeader, body, verdict);
    if d.Refuse? {
      return Reply(d.status, ErrorBody(d.error));
    }
    if saveFails {
      return Reply(500, ErrorBody(ErrorResponse.InternalError()));
    }
    Commit(table, limiter, d.content, ip, incrementFails, keyMillis, stampMillis);
    r := Reply(201, EntryBody(DiaryEntryResponse(TodayJst(responseMillis), d.content, true)));
  }

  /** The two writes of a save: the row first, then, unless the counter
      store fails, the counter. */
  method Commit(table: EntryTable, limiter: RateLimitStore, content: string, ip: string,
                incrementFails: bool, keyMillis: int, stampMillis: int)
    requires ClockReadable(keyMillis) && ClockReadable(stampMillis)
    modifies table, limiter
    ensures table.rows == Upserted(old(table.rows), TodayJst(keyMillis), content, NowIso8601(stampMillis))
    ensures limiter.kv == if incrementFails then old(limiter.kv) else Incremented(old(limiter.kv), ip)
  {
    ghost var kv0 := limiter.kv;
    assert (table as object) != (limiter as object);
    table.UpsertTodayEntry(content, keyMillis, stampMillis);
    ghost var rows1 := table.rows;
    assert limiter.kv == kv0;
    if !incrementFails {
      limiter.IncrementRateLimit(ip);
      assert table.rows == rows1;
    }
  }

  /** The echoed date is the saved key when both readings fall on one JST
      day. (They differ for a save that straddles midnight in Japan:
      `Time.TodayJstChangesAtJstMidnight`.) */
  lemma ResponseDateIsKey(keyMillis: int, responseMillis: int)
    requires 0 <= keyMillis <= LAST_FOUR_DIGIT_MILLIS && 0 <= responseMillis <= LAST_FOUR_DIGIT_MILLIS
    requires (keyMillis + JST_OFFSET_MILLIS) / MILLIS_PER_DAY == (responseMillis + JST_OFFSET_MILLIS) / MILLIS_PER_DAY
    ensures TodayJst(responseMillis) == TodayJst(keyMillis)
  {
    SameTodayIffSameJstDay(keyMillis, responseMillis);
  }
}
