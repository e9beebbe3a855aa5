/**
 * The `/api/companies` request handlers (`GET`, `POST`, `PUT`, `DELETE`),
 * each a transition of the store that also produces the HTTP response.
 * Request bodies arrive already read; the database's verdict on the one
 * statement a handler issues arrives as a `DbOutcome`.
 */
module Route {
  import opened Wrappers
  import opened Json
  import opened Text
  import opened Store

  /** The result of `await request.json()`: a JSON object, or the reason it could not be read. */
  datatype RequestBody = Parsed(data: Record) | Unreadable(description: string)

  /** An HTTP response; `None` is a response without a body. */
  datatype Response = Response(status: int, body: Option<Json>)

  const FetchFailedMessage := "Failed to fetch companies"
  const CreateFailedMessage := "Failed to create company"
  const UpdateFailedMessage := "Failed to update company"
  const DeleteFailedMessage := "Failed to delete company"
  const IdRequiredMessage := "ID is required"

  /** The fields the create handler normalises. */
  const TimestampFields: set<string> := {"contactDate", "createdAt", "updatedAt"}

  function Ok(body: Json): Response {
    Response(200, Some(body))
  }

  function ErrorResponse(status: int, message: string): Response {
    Response(status, Some(JObj(map["error" := JStr(message)])))
  }

  function CreateErrorResponse(details: string): Response {
    Response(500, Some(JObj(map["error" := JStr(CreateFailedMessage), "details" := JStr(details)])))
  }

  /** `fixTimestamp`: an empty string becomes `null`; every other value passes through. */
  function FixTimestamp(v: Option<Json>): (r: Option<Json>)
    ensures r != Some(JStr(""))
    ensures v != Some(JStr("")) ==> r == v
    ensures v == Some(JStr("")) ==> r == Some(JNull)
  {
    if v == Some(JStr("")) then Some(JNull) else v
  }

  lemma FixTimestampIdempotent(v: Option<Json>)
    ensures FixTimestamp(FixTimestamp(v)) == FixTimestamp(v)
  {
  }

  /**
   * `fixedData`: the submitted object with its three timestamp fields passed
   * through `fixTimestamp`; every other field is left exactly as submitted.
   */
  function FixData(data: Record): (r: Record)
    ensures forall f :: f !in TimestampFields ==> Get(r, f) == Get(data, f)
    ensures forall f :: f in TimestampFields ==> Get(r, f) == FixTimestamp(Get(data, f))
  {
    var d1 := SetOpt(data, "contactDate", FixTimestamp(Get(data, "contactDate")));
    var d2 := SetOpt(d1, "createdAt", FixTimestamp(Get(data, "createdAt")));
    SetOpt(d2, "updatedAt", FixTimestamp(Get(data, "updatedAt")))
  }

  /** The rows as the JSON array the list handler sends. */
  function RowsJson(rows: seq<Record>): (items: seq<Json>)
    ensures |items| == |rows|
    ensures forall i :: 0 <= i < |rows| ==> items[i] == JObj(rows[i])
  {
    seq(|rows|, i requires 0 <= i < |rows| => JObj(rows[i]))
  }

  /** `GET`: all rows, or 500 when the select fails. The store is never changed. */
  function HandleGet(s: Store, outcome: DbOutcome): (r: Response)
    ensures outcome.DbError? ==> r == ErrorResponse(500, FetchFailedMessage)
    ensures outcome.DbOk? ==> r.status == 200 && r.body.Some? && r.body.value.JArr?
    ensures outcome.DbOk? ==> forall i :: 0 <= i < |r.body.value.items| ==>
      r.body.value.items[i].JObj? && r.body.value.items[i].fields in s.rows.Values
    ensures outcome.DbOk? && Valid(s) ==> |r.body.value.items| == |s.rows|
    ensures outcome.DbOk? && Valid(s) ==> forall k :: k in s.rows ==> JObj(s.rows[k]) in r.body.value.items
  {
    match outcome
    case DbError(_) => ErrorResponse(500, FetchFailedMessage)
    case DbOk =>
      RowsJsonComplete(s);
      Ok(JArr(RowsJson(SelectAll(s))))
  }

  /** On a valid table the list response holds every row, once each. */
  lemma RowsJsonComplete(s: Store)
    ensures Valid(s) ==> |RowsJson(SelectAll(s))| == |s.rows|
    ensures Valid(s) ==> forall k :: k in s.rows ==> JObj(s.rows[k]) in RowsJson(SelectAll(s))
  {
    if Valid(s) {
      var rows := SelectAll(s);
      SelectAllComplete(s);
      forall k | k in s.rows
        ensures JObj(s.rows[k]) in RowsJson(rows)
      {
        var i := PositionOf(rows, s.rows[k]);
        assert RowsJson(rows)[i] == JObj(s.rows[k]);
      }
    }
  }

  /**
   * `POST`: the normalised body is inserted under a fresh id and the stored
   * row is returned. An unreadable body or a failed insert gives 500 with the
   * error's description as `details`, and nothing is stored.
   */
  function HandlePost(s: Store, body: RequestBody, outcome: DbOutcome): (r: (Store, Response))
    ensures r.1.status == 200 <==> body.Parsed? && outcome.DbOk?
    ensures body.Unreadable? ==> r == (s, CreateErrorResponse(body.description))
    ensures body.Parsed? && outcome.DbError? ==> r == (s, CreateErrorResponse(outcome.description))
    ensures r.1.status == 200 ==>
      && r.0.rows.Keys == s.rows.Keys + {s.nextId}
      && (forall k :: k in s.rows && k != s.nextId ==> r.0.rows[k] == s.rows[k])
      && r.1.body == Some(JObj(r.0.rows[s.nextId]))
    ensures r.1.status == 200 ==>
      var row := r.0.rows[s.nextId];
      && Get(row, "id") == Some(JNum(s.nextId))
      && (forall f :: f !in TimestampFields && f != "id" ==> Get(row, f) == Get(body.data, f))
      && (forall f :: f in TimestampFields ==> Get(row, f) == FixTimestamp(Get(body.data, f)))
    ensures Valid(s) ==> Valid(r.0)
  {
    match body
    case Unreadable(reason) => (s, CreateErrorResponse(reason))
    case Parsed(data) =>
      match outcome
      case DbError(description) => (s, CreateErrorResponse(description))
      case DbOk =>
        var s' := Insert(s, FixData(data));
        (s', Ok(JObj(s'.rows[s.nextId])))
  }

  /** How `eq(biotechCompanies.id, id)` reads the submitted `id`: only a number matches a row. */
  function IdKey(v: Option<Json>): (k: Option<int>)
    ensures k.Some? <==> v.Some? && v.value.JNum?
    ensures k.Some? ==> v == Some(JNum(k.value))
  {
    match v
    case Some(JNum(n)) => Some(n)
    case _ => None
  }

  /** The body's `id` names a stored row. */
  predicate UpdateHits(s: Store, data: Record) {
    IdKey(Get(data, "id")).Some? && IdKey(Get(data, "id")).value in s.rows
  }

  /**
   * `PUT`: `id` is split off the body and every other submitted field is
   * written, as submitted, to the row with that id, which is returned. No
   * other row changes. When the id matches no row the update returns no
   * rows, and `NextResponse.json(undefined)` throws inside the `try`
   * because `undefined` has no JSON text: that answers 500, as do an
   * unreadable body and a failed update.
   */
  function HandlePut(s: Store, body: RequestBody, outcome: DbOutcome): (r: (Store, Response))
    ensures r.1.status == 200 <==> body.Parsed? && outcome.DbOk? && UpdateHits(s, body.data)
    ensures r.1.status != 200 ==> r == (s, ErrorResponse(500, UpdateFailedMessage))
    ensures r.0.nextId == s.nextId
    ensures forall k :: k in s.rows <==> k in r.0.rows
    ensures forall k :: k in s.rows && (body.Unreadable? || Get(body.data, "id") != Some(JNum(k))) ==> r.0.rows[k] == s.rows[k]
    ensures r.1.status == 200 ==>
      var k := IdKey(Get(body.data, "id")).value;
      && r.1.body == Some(JObj(r.0.rows[k]))
      && (forall f :: f != "id" && f in body.data ==> Get(r.0.rows[k], f) == Some(body.data[f]))
      && (forall f :: f == "id" || f !in body.data ==> Get(r.0.rows[k], f) == Get(s.rows[k], f))
    ensures Valid(s) ==> Valid(r.0)
  {
    match body
    case Unreadable(_) => (s, ErrorResponse(500, UpdateFailedMessage))
    case Parsed(data) =>
      match outcome
      case DbError(_) => (s, ErrorResponse(500, UpdateFailedMessage))
      case DbOk =>
        var (s', row) := UpdateWhere(s, IdKey(Get(data, "id")), data - {"id"});
        match row
        case Some(x) => (s', Ok(JObj(x)))
        case None => (s, ErrorResponse(500, UpdateFailedMessage))
  }

  /**
   * `DELETE ?id=...`: a missing or empty `id` is refused with 400. Otherwise
   * the row whose key is `parseInt(id)` is removed, if there is one, and the
   * answer is `{success: true}` whether or not a row matched. An `id` that
   * parses to `NaN` is rejected by the database, as is any failed delete: 500.
   */
  function HandleDelete(s: Store, id: Option<string>, outcome: DbOutcome): (r: (Store, Response))
    ensures id == None || id == Some("") ==> r == (s, ErrorResponse(400, IdRequiredMessage))
    ensures r.1.status == 200 <==> id.Some? && id.value != "" && ParseInt(id.value).Some? && outcome.DbOk?
    ensures r.1.status != 200 ==> r.0 == s
    ensures r.1.status == 200 ==>
      && r.1.body == Some(JObj(map["success" := JBool(true)]))
      && r.0.rows.Keys == s.rows.Keys - {ParseInt(id.value).value}
      && (forall k :: k in r.0.rows ==> r.0.rows[k] == s.rows[k])
    ensures id.Some? && id.value != "" && r.1.status != 200 ==> r.1 == ErrorResponse(500, DeleteFailedMessage)
    ensures Valid(s) ==> Valid(r.0)
  {
    match id
    case None => (s, ErrorResponse(400, IdRequiredMessage))
    case Some(text) =>
      if text == "" then (s, ErrorResponse(400, IdRequiredMessage))
      else
        match ParseInt(text)
        case None => (s, ErrorResponse(500, DeleteFailedMessage))
        case Some(key) =>
          match outcome
          case DbError(_) => (s, ErrorResponse(500, DeleteFailedMessage))
          case DbOk => (DeleteWhere(s, key), Ok(JObj(map["success" := JBool(true)])))
  }

  /** No row holds an empty string in a timestamp column. */
  predicate NoEmptyTimestamps(s: Store) {
    forall k, f :: k in s.rows && f in TimestampFields ==> Get(s.rows[k], f) != Some(JStr(""))
  }

  /** The create handler never stores an empty timestamp. */
  lemma HandlePostNoEmptyTimestamps(s: Store, body: RequestBody, outcome: DbOutcome)
    requires NoEmptyTimestamps(s)
    ensures NoEmptyTimestamps(HandlePost(s, body, outcome).0)
  {
    var r := HandlePost(s, body, outcome);
    if r.1.status == 200 {
      forall k, f | k in r.0.rows && f in TimestampFields
        ensures Get(r.0.rows[k], f) != Some(JStr(""))
      {
        if k != s.nextId {
          assert k in s.rows;
        }
      }
    }
  }

  /**
   * As written, the update handler passes an edited form's cleared date
   * straight to the database: an `id` naming a row and `contactDate: ""`
   * asks for that row's timestamp to become the empty string.
   */
  lemma HandlePutForwardsEmptyTimestamp()
    ensures var s := Store(map[1 := map["id" := JNum(1)]], 2);
      var body := Parsed(map["id" := JNum(1), "contactDate" := JStr("")]);
      && Valid(s) && NoEmptyTimestamps(s)
      && !NoEmptyTimestamps(HandlePut(s, body, DbOk).0)
  {
    var s := Store(map[1 := map["id" := JNum(1)]], 2);
    var body := Parsed(map["id" := JNum(1), "contactDate" := JStr("")]);
    var r := HandlePut(s, body, DbOk);
    assert "contactDate" != "id";
    assert Get(r.0.rows[1], "contactDate") == Some(JStr(""));
  }

  /**
   * The update handler with the create handler's normalisation applied to
   * the changes: a cleared timestamp is written as `null`.
   */
  function HandlePutNormalised(s: Store, body: RequestBody, outcome: DbOutcome): (r: (Store, Response))
    ensures r.1.status == 200 <==> body.Parsed? && outcome.DbOk? && UpdateHits(s, body.data)
    ensures r.1.status != 200 ==> r == (s, ErrorResponse(500, UpdateFailedMessage))
    ensures r.0.nextId == s.nextId
    ensures forall k :: k in s.rows <==> k in r.0.rows
    ensures forall k :: k in s.rows && (body.Unreadable? || Get(body.data, "id") != Some(JNum(k))) ==> r.0.rows[k] == s.rows[k]
    ensures r.1.status == 200 ==>
      var k := IdKey(Get(body.data, "id")).value;
      && r.1.body == Some(JObj(r.0.rows[k]))
      && (forall f :: f != "id" && f !in TimestampFields && f in body.data ==> Get(r.0.rows[k], f) == Some(body.data[f]))
      && (forall f :: f in TimestampFields && f in body.data ==> Get(r.0.rows[k], f) == FixTimestamp(Get(body.data, f)))
      && (forall f :: f == "id" || f !in body.data ==> Get(r.0.rows[k], f) == Get(s.rows[k], f))
    ensures Valid(s) ==> Valid(r.0)
    ensures NoEmptyTimestamps(s) ==> NoEmptyTimestamps(r.0)
  {
    match body
    case Unreadable(_) => (s, ErrorResponse(500, UpdateFailedMessage))
    case Parsed(data) =>
      match outcome
      case DbError(_) => (s, ErrorResponse(500, UpdateFailedMessage))
      case DbOk =>
        var changes := FixPresent(data - {"id"});
        var (s', row) := UpdateWhere(s, IdKey(Get(data, "id")), changes);
        match row
        case Some(x) => (s', Ok(JObj(x)))
        case None => (s, ErrorResponse(500, UpdateFailedMessage))
  }

  /**
   * `fixTimestamp` on the timestamp fields that are present; an absent
   * field stays absent, so an update leaves that column alone.
   */
  function FixPresent(data: Record): (r: Record)
    ensures r.Keys == data.Keys
    ensures forall f :: f in data && f !in TimestampFields ==> r[f] == data[f]
    ensures forall f :: f in data && f in TimestampFields ==> Some(r[f]) == FixTimestamp(Some(data[f]))
  {
    map f | f in data :: if f in TimestampFields && data[f] == JStr("") then JNull else data[f]
  }
}
