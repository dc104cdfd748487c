/** src/models.rs: the rows and the JSON bodies the handlers exchange. */
module Models {
  import opened Wrappers
  import opened Strings

  /** How many characters of an entry the archive list shows. */
  const PREVIEW_CHARS: nat := 100

  /** A row of `diary_entries`: one per date. */
  datatype DiaryEntry = DiaryEntry(date: string, content: string, createdAt: string, updatedAt: string)

  /** The body of a found entry. */
  datatype DiaryEntryResponse = DiaryEntryResponse(date: string, content: string, canEdit: bool)
  {
    /** `DiaryEntryResponse::from_entry`. */
    static function FromEntry(entry: DiaryEntry, canEdit: bool): (r: DiaryEntryResponse)
      ensures r.date == entry.date && r.content == entry.content && r.canEdit == canEdit
    {
      DiaryEntryResponse(entry.date, entry.content, canEdit)
    }
  }

  /** The body of `/api/today` before anyone has written today. */
  datatype TodayEmptyResponse = TodayEmptyResponse(date: string, content: Option<string>, canEdit: bool)

  /** `{ "error": ..., "code": ... }`. */
  datatype ErrorResponse = ErrorResponse(error: string, code: string)
  {
    static function NotFound(): (r: ErrorResponse)
      ensures r.code == "NOT_FOUND"
    {
      ErrorResponse("Entry not found", "NOT_FOUND")
    }

    static function BadRequest(message: string): (r: ErrorResponse)
      ensures r.code == "BAD_REQUEST" && r.error == message
    {
      ErrorResponse(message, "BAD_REQUEST")
    }

    static function InternalError(): (r: ErrorResponse)
      ensures r.code == "INTERNAL_ERROR"
    {
      ErrorResponse("Internal server error", "INTERNAL_ERROR")
    }
  }

  /** The body of the archive list. */
  datatype DiaryListResponse = DiaryListResponse(entries: seq<DiaryEntrySummary>)

  /** An archive line: the date and the start of the text. */
  datatype DiaryEntrySummary = DiaryEntrySummary(date: string, preview: string)
  {
    /** `DiaryEntrySummary::from_entry`: a text of more than 100 characters
        is cut to its first 100 characters and `...`. */
    static function FromEntry(entry: DiaryEntry): (s: DiaryEntrySummary)
      ensures s.date == entry.date
      ensures |entry.content| <= PREVIEW_CHARS ==> s.preview == entry.content
      ensures |entry.content| > PREVIEW_CHARS ==>
                |s.preview| == PREVIEW_CHARS + 3 && s.preview == entry.content[..PREVIEW_CHARS] + "..."
      ensures |s.preview| <= PREVIEW_CHARS + 3
    {
      DiaryEntrySummary(entry.date, TruncateChars(entry.content, PREVIEW_CHARS))
    }
  }

  /** A past state of an entry. */
  datatype DiaryVersion = DiaryVersion(id: int, entryDate: string, content: string, versionNumber: int, createdAt: string)

  datatype VersionSummary = VersionSummary(versionNumber: int, createdAt: string, preview: string)
  {
    /** `VersionSummary::from_version`: the same 100-character preview. */
    static function FromVersion(v: DiaryVersion): (s: VersionSummary)
      ensures s.versionNumber == v.versionNumber && s.createdAt == v.createdAt
      ensures |v.content| <= PREVIEW_CHARS ==> s.preview == v.content
      ensures |v.content| > PREVIEW_CHARS ==>
                |s.preview| == PREVIEW_CHARS + 3 && s.preview == v.content[..PREVIEW_CHARS] + "..."
    {
      VersionSummary(v.versionNumber, v.createdAt, TruncateChars(v.content, PREVIEW_CHARS))
    }
  }

  /** The body of `POST /api/today`, once it has been decoded. */
  datatype PostTodayRequest = PostTodayRequest(content: string, turnstileToken: Option<string>)

  /** A short entry keeps its text; 150 characters give a 103-character
      preview ending in `...`. */
  lemma PreviewExamples()
    ensures DiaryEntrySummary.FromEntry(DiaryEntry("2025-01-15", "短い日記", "", "")).preview == "短い日記"
    ensures var p := DiaryEntrySummary.FromEntry(DiaryEntry("2025-01-15", Repeat('あ', 150), "", "")).preview;
      |p| == 103 && p[100..] == "..."
  {
  }
}
