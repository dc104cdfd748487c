/** The JSON responses the handlers send: a status code and one of the
    bodies of src/models.rs, as `Response::from_json(..).with_status(..)`
    builds them. */
module Http {
  import opened Wrappers
  import opened Models

  datatype Body =
    | EntryBody(entry: DiaryEntryResponse)
    | EmptyTodayBody(empty: TodayEmptyResponse)
    | ListBody(list: DiaryListResponse)
    | ErrorBody(error: ErrorResponse)

  datatype Reply = Reply(status: nat, body: Body)

  /** The `can_edit` flag a body carries, if any. */
  function CanEdit(b: Body): Option<bool>
  {
    match b
    case EntryBody(e) => Some(e.canEdit)
    case EmptyTodayBody(e) => Some(e.canEdit)
    case _ => None
  }
}
