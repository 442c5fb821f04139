/** The status-setting route (`routes/set.js`): validate the `status` query
    parameter, read the status document, overwrite two of its fields, write
    it back. The read and write outcomes and the formatted clock reading are
    parameters. */
module SetStatus {
  import opened Wrappers
  import opened Envelope
  import opened JsParseInt

  /** The status document: the two fields the route sets, and every other
      field, which it passes through untouched. */
  datatype StatusRecord = StatusRecord(status: int, lastUpdated: string, others: map<string, string>)

  /** The route's answer: an error envelope, or `{success, code, set_to}`. */
  datatype Response =
    | Failed(envelope: Envelope)
    | StatusSet(success: bool, code: string, setTo: int)

  /** What a call leaves behind: the document it wrote, if it wrote one, and
      the response. */
  datatype Outcome = Outcome(written: Option<StatusRecord>, response: Response)

  function HttpStatus(r: Response): int {
    match r
    case Failed(e) => e.code
    case StatusSet(_, _, _) => 200
  }

  const MissingStatus: string := "Missing required parameter 'status'"
  const StatusNotNumber: string := "Argument 'status' must be a number"
  const ReadFailed: string := "Failed to read data file"
  const WriteFailed: string := "Failed to update status"

  function Fail(code: int, message: string): (o: Outcome)
    ensures o.written.None? && o.response.Failed?
    ensures HttpStatus(o.response) == code && o.response.envelope.message == message
  {
    Outcome(None, Failed(APIUnsuccessful(code, message)))
  }

  /** The `/set?status=<status>` handler behind the authentication gate.
      `stored` is the parsed document (None when reading or parsing fails),
      `now` the formatted local time, `writeOk` whether the write succeeds. */
  function HandleSet(status: Option<string>, stored: Option<StatusRecord>, now: string, writeOk: bool): (o: Outcome)
    ensures !Truthy(status) ==> o == Fail(400, MissingStatus)
    ensures Truthy(status) && ParseInt(status.value).None? ==> o == Fail(400, StatusNotNumber)
    ensures Truthy(status) && ParseInt(status.value).Some? && stored.None? ==> o == Fail(500, ReadFailed)
    ensures Truthy(status) && ParseInt(status.value).Some? && stored.Some? && !writeOk ==> o == Fail(500, WriteFailed)
    ensures o.written.Some? <==> Truthy(status) && ParseInt(status.value).Some? && stored.Some? && writeOk
    ensures o.written.Some? ==> o.written.value == stored.value.(status := ParseInt(status.value).value, lastUpdated := now)
    ensures o.response.StatusSet? <==> o.written.Some?
    ensures o.response.StatusSet? ==> o.response == StatusSet(true, "OK", ParseInt(status.value).value)
  {
    if !Truthy(status) then Fail(400, MissingStatus)
    else
      match ParseInt(status.value)
      case None => Fail(400, StatusNotNumber)
      case Some(n) =>
        match stored
        case None => Fail(500, ReadFailed)
        case Some(data) =>
          var updated := data.(status := n, lastUpdated := now);
          if !writeOk then Fail(500, WriteFailed)
          else Outcome(Some(updated), StatusSet(true, "OK", n))
  }

  /** The document as a later read sees it. */
  function StoreAfter(before: Option<StatusRecord>, o: Outcome): Option<StatusRecord> {
    if o.written.Some? then o.written else before
  }

  /** Setting any integer, written in decimal, and reading back gives that
      integer, the new time, and every other field as it was; no list of
      known status codes is consulted. */
  lemma SetThenRead(n: int, data: StatusRecord, now: string)
    ensures var o := HandleSet(Some(IntString(n)), Some(data), now, true);
      && StoreAfter(Some(data), o) == Some(StatusRecord(n, now, data.others))
      && o.response == StatusSet(true, "OK", n)
      && HttpStatus(o.response) == 200
  {
    ParseIntOfIntString(n, "");
    assert IntString(n) + "" == IntString(n);
  }

  /** Every failure leaves the stored document as it was. */
  lemma FailureChangesNothing(status: Option<string>, stored: Option<StatusRecord>, now: string, writeOk: bool)
    ensures var o := HandleSet(status, stored, now, writeOk);
      o.response.Failed? ==> StoreAfter(stored, o) == stored
  {
  }

  /** A non-numeric status is refused with 400 before the document is read. */
  lemma NonNumericRefused(stored: Option<StatusRecord>, now: string, writeOk: bool)
    ensures HandleSet(Some("abc"), stored, now, writeOk) == Fail(400, StatusNotNumber)
  {
    TrimStartNoWhiteSpace("abc");
    ParseIntNaN("abc");
  }

  /** "12abc" is accepted and sets 12. */
  lemma TrailingTextAccepted(data: StatusRecord, now: string)
    ensures HandleSet(Some("12abc"), Some(data), now, true).response == StatusSet(true, "OK", 12)
  {
    ParseIntTrailingText();
  }
}
