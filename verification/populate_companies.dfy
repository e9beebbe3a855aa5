/**
 * The seeding script's own logic: finding the company list in the language
 * model's parsed JSON answer, mapping each generated company onto a record,
 * and inserting the records one after another until one fails.
 */
module PopulateCompanies {
  import opened Wrappers
  import opened Json
  import opened Text
  import opened Store

  datatype SeedError =
    | NullProperty            // a property read on `null` (TypeError)
    | NoCompanies             // "Response does not contain companies array or company object"
    | NotAnArray              // "Parsed companies is not an array"
    | LocationNotSplittable   // `location.split` is not a function
    | InsertFailed(description: string)

  /** `v?.key` on a parsed value: only an object has the script's properties. */
  function OptProp(v: Option<Json>, key: string): Option<Json> {
    match v
    case Some(JObj(m)) => Get(m, key)
    case _ => None
  }

  /**
   * The value the parse block binds to `companies`: an array under
   * `companies` as it is, an object under `companies` wrapped in an array,
   * otherwise the root wrapped in an array when its `company_name` is
   * truthy. Reading a property of a `null` root throws.
   */
  function CompaniesValue(parsed: Json): (r: Result<Json, SeedError>)
    ensures r.Success? ==> r.value.JArr?
    ensures r.Failure? ==> r.error == NullProperty || r.error == NoCompanies
    ensures parsed.JNull? <==> r == Failure(NullProperty)
  {
    if parsed.JNull? then Failure(NullProperty)
    else
      var c := OptProp(Some(parsed), "companies");
      if c.Some? && c.value.JArr? then Success(c.value)
      else if c.Some? && c.value.JObj? then Success(JArr([c.value]))
      else if Truthy(OptProp(Some(parsed), "company_name")) then Success(JArr([parsed]))
      else Failure(NoCompanies)
  }

  /** `fetchCompanyData` from the parsed answer on: the list of generated companies. */
  function FetchCompanyData(parsed: Json): (r: Result<seq<Json>, SeedError>)
    ensures r != Failure(NotAnArray)
    ensures parsed.JNull? ==> r == Failure(NullProperty)
    ensures parsed.JObj? && "companies" in parsed.fields && parsed.fields["companies"].JArr? ==>
      r == Success(parsed.fields["companies"].items)
    ensures parsed.JObj? && "companies" in parsed.fields && parsed.fields["companies"].JObj? ==>
      r == Success([parsed.fields["companies"]])
    ensures parsed.JObj? && !("companies" in parsed.fields && (parsed.fields["companies"].JArr? || parsed.fields["companies"].JObj?)) ==>
      r == (if Truthy(Get(parsed.fields, "company_name")) then Success([parsed]) else Failure(NoCompanies))
    ensures !parsed.JObj? && !parsed.JNull? ==> r == Failure(NoCompanies)
  {
    match CompaniesValue(parsed)
    case Failure(e) => Failure(e)
    case Success(v) => if v.JArr? then Success(v.items) else Failure(NotAnArray)
  }

  /**
   * `location?.split(",")[0]?.trim()` and `...[1]?.trim()`: city and state.
   * A non-string location has no `split` and throws.
   */
  function SplitLocation(location: Option<Json>): (r: Result<(Option<Json>, Option<Json>), SeedError>)
    ensures Nullish(location) ==> r == Success((None, None))
    ensures !Nullish(location) && !location.value.JStr? ==> r == Failure(LocationNotSplittable)
    ensures !Nullish(location) && location.value.JStr? ==> r.Success? && r.value.0.Some?
  {
    if Nullish(location) then Success((None, None))
    else if !location.value.JStr? then Failure(LocationNotSplittable)
    else
      var parts := Split(location.value.s, ',');
      Success((Some(JStr(Trim(parts[0]))), if |parts| > 1 then Some(JStr(Trim(parts[1]))) else None))
  }

  /**
   * Split-free reading of the location rule: the city is the trimmed text
   * before the first comma, the state the trimmed text between the first
   * and the second comma (or the end); with no comma there is no state.
   */
  lemma SplitLocationMeaning(s: string)
    ensures SplitLocation(Some(JStr(s))).Success?
    ensures SplitLocation(Some(JStr(s))).value.0 == Some(JStr(Trim(s[..IndexOf(s, ',')])))
    ensures IndexOf(s, ',') == |s| ==> SplitLocation(Some(JStr(s))).value.1 == None
    ensures IndexOf(s, ',') < |s| ==> var rest := s[IndexOf(s, ',') + 1..];
      SplitLocation(Some(JStr(s))).value.1 == Some(JStr(Trim(rest[..IndexOf(rest, ',')])))
  {
    SplitFirstTwo(s, ',');
  }

  /** The first two pieces of a split, read off the separator positions. */
  lemma SplitFirstTwo(s: string, sep: char)
    ensures Split(s, sep)[0] == s[..IndexOf(s, sep)]
    ensures IndexOf(s, sep) == |s| ==> |Split(s, sep)| == 1
    ensures IndexOf(s, sep) < |s| ==> var rest := s[IndexOf(s, sep) + 1..];
      |Split(s, sep)| > 1 && Split(s, sep)[1] == rest[..IndexOf(rest, sep)]
  {
    SplitPieces(s, sep);
    var i := IndexOf(s, sep);
    if i < |s| {
      var rest := s[i + 1..];
      SplitPieces(rest, sep);
      assert Split(s, sep)[1] == Split(rest, sep)[0];
    }
  }

  /** The fields a seeded record can have. */
  const SeedFields: set<string> := {
    "companyName", "website", "city", "state", "companyDescription", "companyProducts",
    "companySize", "industry", "foundedYear", "headquarters", "contactEmail", "contactPhone",
    "notes", "createdAt", "updatedAt"
  }

  /**
   * `companyData` for one generated company, `now` standing for `new Date()`.
   * A `null` company throws on its first property read; so does a location
   * that is not a string. A property the company lacks leaves its field out.
   */
  function CompanyData(company: Json, now: Json): (r: Result<Record, SeedError>)
    ensures company.JNull? ==> r == Failure(NullProperty)
    ensures r.Failure? ==> company.JNull? || r == Failure(LocationNotSplittable)
    ensures !company.JNull? ==> (r.Success? <==> SplitLocation(OptProp(Some(company), "location")).Success?)
  {
    if company.JNull? then Failure(NullProperty)
    else
      match SplitLocation(OptProp(Some(company), "location"))
      case Failure(e) => Failure(e)
      case Success((city, state)) => Success(SeedRecord(company, city, state, now))
  }

  /** The object literal of `companyData`, once city and state are known; `None` is `undefined`. */
  function SeedObject(company: Json, city: Option<Json>, state: Option<Json>, now: Json): map<string, Option<Json>> {
    var c := Some(company);
    var contact := OptProp(c, "contact_information");
    map[
      "companyName" := OptProp(c, "company_name"),
      "website" := OptProp(c, "website_url"),
      "city" := city,
      "state" := state,
      "companyDescription" := OptProp(c, "company_description"),
      "companyProducts" := OptProp(c, "products_technologies"),
      "companySize" := OptProp(c, "company_size"),
      "industry" := OptProp(c, "industry_focus"),
      "foundedYear" := OptProp(c, "founded_year"),
      "headquarters" := OptProp(c, "headquarters"),
      "contactEmail" := OptProp(contact, "email"),
      "contactPhone" := OptProp(contact, "phone_number"),
      "notes" := OptProp(c, "job_opportunities"),
      "createdAt" := Some(now),
      "updatedAt" := Some(now)]
  }

  /** The record `companyData` hands to the insert. */
  function SeedRecord(company: Json, city: Option<Json>, state: Option<Json>, now: Json): Record {
    Defined(SeedObject(company, city, state, now))
  }

  /** An object literal's defined properties: an `undefined` value leaves the key out. */
  function Defined(fields: map<string, Option<Json>>): (r: Record)
    ensures forall k :: Get(r, k) == if k in fields then fields[k] else None
  {
    map k | k in fields && fields[k].Some? :: fields[k].value
  }

  /** The location rule supplies the record's city and state. */
  lemma CompanyDataLocation(company: Json, now: Json)
    requires CompanyData(company, now).Success?
    ensures var row := CompanyData(company, now).value;
      && Success((Get(row, "city"), Get(row, "state"))) == SplitLocation(OptProp(Some(company), "location"))
      && row == SeedRecord(company, Get(row, "city"), Get(row, "state"), now)
  {
    var (city, state) := SplitLocation(OptProp(Some(company), "location")).value;
    SeedRecordLocation(company, city, state, now);
  }

  lemma SeedRecordLocation(company: Json, city: Option<Json>, state: Option<Json>, now: Json)
    ensures var row := SeedRecord(company, city, state, now);
      Get(row, "city") == city && Get(row, "state") == state
  {
  }

  /** `companyData`'s one-to-one copies of the company's snake_case properties. */
  lemma SeedRecordCopies(company: Json, city: Option<Json>, state: Option<Json>, now: Json)
    ensures var row := SeedRecord(company, city, state, now); var c := Some(company);
      && Get(row, "companyName") == OptProp(c, "company_name")
      && Get(row, "website") == OptProp(c, "website_url")
      && Get(row, "companyDescription") == OptProp(c, "company_description")
      && Get(row, "companyProducts") == OptProp(c, "products_technologies")
  {
    var o := SeedObject(company, city, state, now);
    assert "companyName" in o && o["companyName"] == OptProp(Some(company), "company_name");
    assert "website" in o && o["website"] == OptProp(Some(company), "website_url");
    assert "companyDescription" in o && o["companyDescription"] == OptProp(Some(company), "company_description");
    assert "companyProducts" in o && o["companyProducts"] == OptProp(Some(company), "products_technologies");
  }

  /** The rest of `companyData`'s one-to-one copies. */
  lemma SeedRecordMoreCopies(company: Json, city: Option<Json>, state: Option<Json>, now: Json)
    ensures var row := SeedRecord(company, city, state, now); var c := Some(company);
      && Get(row, "companySize") == OptProp(c, "company_size")
      && Get(row, "industry") == OptProp(c, "industry_focus")
      && Get(row, "foundedYear") == OptProp(c, "founded_year")
      && Get(row, "headquarters") == OptProp(c, "headquarters")
      && Get(row, "notes") == OptProp(c, "job_opportunities")
  {
    var o := SeedObject(company, city, state, now);
    assert "companySize" in o && o["companySize"] == OptProp(Some(company), "company_size");
    assert "industry" in o && o["industry"] == OptProp(Some(company), "industry_focus");
    assert "foundedYear" in o && o["foundedYear"] == OptProp(Some(company), "founded_year");
    assert "headquarters" in o && o["headquarters"] == OptProp(Some(company), "headquarters");
    assert "notes" in o && o["notes"] == OptProp(Some(company), "job_opportunities");
  }

  /** The contact fields come from `contact_information`; both timestamps are `now`. */
  lemma SeedRecordContactAndTimes(company: Json, city: Option<Json>, state: Option<Json>, now: Json)
    ensures var row := SeedRecord(company, city, state, now); var contact := OptProp(Some(company), "contact_information");
      && Get(row, "contactEmail") == OptProp(contact, "email")
      && Get(row, "contactPhone") == OptProp(contact, "phone_number")
      && Get(row, "createdAt") == Some(now) && Get(row, "updatedAt") == Some(now)
  {
    var o := SeedObject(company, city, state, now);
    assert "contactEmail" in o && o["contactEmail"] == OptProp(OptProp(Some(company), "contact_information"), "email");
    assert "contactPhone" in o && o["contactPhone"] == OptProp(OptProp(Some(company), "contact_information"), "phone_number");
    assert "createdAt" in o && o["createdAt"] == Some(now);
    assert "updatedAt" in o && o["updatedAt"] == Some(now);
  }

  /** `companyData` sets no field beyond the fifteen it names. */
  lemma SeedRecordOnlySeedFields(company: Json, city: Option<Json>, state: Option<Json>, now: Json)
    ensures forall f :: f in SeedRecord(company, city, state, now) ==> f in SeedFields
  {
  }

  /** The ids `lo` up to, not including, `hi`. */
  function IdsBetween(lo: int, hi: int): (ids: set<int>)
    ensures forall k :: k in ids <==> lo <= k < hi
    decreases hi - lo
  {
    if lo >= hi then {} else {lo} + IdsBetween(lo + 1, hi)
  }

  function OutcomeAt(outcomes: seq<DbOutcome>): DbOutcome {
    if |outcomes| > 0 then outcomes[0] else DbOk
  }

  function Rest<T>(xs: seq<T>): seq<T> {
    if |xs| > 0 then xs[1..] else []
  }

  /** Each company's `companyData`; the mapping is pure, so it can be taken ahead of the inserts. */
  function MapCompanies(companies: seq<Json>, now: Json): (rows: seq<Result<Record, SeedError>>)
    ensures |rows| == |companies|
    ensures forall i :: 0 <= i < |companies| ==> rows[i] == CompanyData(companies[i], now)
  {
    seq(|companies|, i requires 0 <= i < |companies| => CompanyData(companies[i], now))
  }

  /**
   * The loop of `insertCompanies` over the mapped companies: each record is
   * inserted in turn; the first failure (a mapping that threw, or a rejected
   * insert) stops the loop and is reported, and the rows inserted before it
   * stay. `outcomes[i]` is the database's answer to the i-th insert (ok when
   * not given).
   */
  function InsertRows(rows: seq<Result<Record, SeedError>>, s: Store, outcomes: seq<DbOutcome>): (r: (Store, Option<SeedError>))
    ensures s.nextId <= r.0.nextId <= s.nextId + |rows|
    ensures r.1.None? <==> r.0.nextId == s.nextId + |rows|
    ensures r.0.rows.Keys == s.rows.Keys + IdsBetween(s.nextId, r.0.nextId)
    decreases |rows|
  {
    if |rows| == 0 then (s, None)
    else
      match rows[0]
      case Failure(e) => (s, Some(e))
      case Success(row) =>
        match OutcomeAt(outcomes)
        case DbError(d) => (s, Some(InsertFailed(d)))
        case DbOk =>
          var s1 := Insert(s, row);
          var rest := InsertRows(rows[1..], s1, Rest(outcomes));
          assert IdsBetween(s.nextId, rest.0.nextId) == {s.nextId} + IdsBetween(s1.nextId, rest.0.nextId);
          rest
  }

  /** `insertCompanies`, `now` standing for every `new Date()` of the run. */
  function InsertCompanies(companies: seq<Json>, now: Json, s: Store, outcomes: seq<DbOutcome>): (r: (Store, Option<SeedError>))
    ensures s.nextId <= r.0.nextId <= s.nextId + |companies|
    ensures r.1.None? <==> r.0.nextId == s.nextId + |companies|
  {
    InsertRows(MapCompanies(companies, now), s, outcomes)
  }

  /** Record `j` mapped and the database accepted its insert. */
  predicate Accepted(rows: seq<Result<Record, SeedError>>, outcomes: seq<DbOutcome>, j: int)
    requires 0 <= j < |rows|
  {
    rows[j].Success? && (j >= |outcomes| || outcomes[j].DbOk?)
  }

  /** Dropping the first record shifts the acceptance of the others by one. */
  lemma AcceptedShift(rows: seq<Result<Record, SeedError>>, outcomes: seq<DbOutcome>, j: int)
    requires 1 <= j < |rows|
    ensures Accepted(rows, outcomes, j) == Accepted(rows[1..], Rest(outcomes), j - 1)
  {
    assert rows[j] == rows[1..][j - 1];
    if j < |outcomes| {
      assert outcomes[j] == Rest(outcomes)[j - 1];
    }
  }

  /** Once record 0 is accepted, "all accepted up to i" is "all of the rest accepted up to i - 1". */
  lemma AllAcceptedShift(rows: seq<Result<Record, SeedError>>, outcomes: seq<DbOutcome>, i: int)
    requires 1 <= i < |rows| && Accepted(rows, outcomes, 0)
    ensures (forall j :: 0 <= j <= i ==> Accepted(rows, outcomes, j)) <==>
      (forall j :: 0 <= j <= i - 1 ==> Accepted(rows[1..], Rest(outcomes), j))
  {
    if forall j :: 0 <= j <= i ==> Accepted(rows, outcomes, j) {
      forall j | 0 <= j <= i - 1
        ensures Accepted(rows[1..], Rest(outcomes), j)
      {
        AcceptedShift(rows, outcomes, j + 1);
      }
    } else {
      var j :| 0 <= j <= i && !Accepted(rows, outcomes, j);
      AcceptedShift(rows, outcomes, j);
    }
  }

  /** The inserts stop at the first failure: the i-th record went in iff every one up to it mapped and was accepted. */
  lemma {:induction false} InsertRowsStopsAtFirstFailure(rows: seq<Result<Record, SeedError>>, s: Store, outcomes: seq<DbOutcome>, i: int)
    requires 0 <= i < |rows|
    ensures s.nextId + i < InsertRows(rows, s, outcomes).0.nextId <==>
      forall j :: 0 <= j <= i ==> Accepted(rows, outcomes, j)
    decreases |rows|
  {
    var r := InsertRows(rows, s, outcomes);
    if !Accepted(rows, outcomes, 0) {
      assert r.0 == s;
    } else {
      var s1 := Insert(s, rows[0].value);
      var outs := Rest(outcomes);
      var rest := InsertRows(rows[1..], s1, outs);
      assert OutcomeAt(outcomes) == DbOk;
      assert r == rest;
      assert s1.nextId == s.nextId + 1;
      if i > 0 {
        InsertRowsStopsAtFirstFailure(rows[1..], s1, outs, i - 1);
        AllAcceptedShift(rows, outcomes, i);
      }
    }
  }

  /** Rows already in the table are kept by the inserts. */
  lemma {:induction false} InsertRowsKeepsRows(rows: seq<Result<Record, SeedError>>, s: Store, outcomes: seq<DbOutcome>)
    ensures forall k :: k in s.rows && k < s.nextId ==> InsertRows(rows, s, outcomes).0.rows[k] == s.rows[k]
    decreases |rows|
  {
    if |rows| > 0 {
      match rows[0]
      case Failure(_) =>
      case Success(row) =>
        match OutcomeAt(outcomes)
        case DbError(_) =>
        case DbOk =>
          InsertRowsKeepsRows(rows[1..], Insert(s, row), Rest(outcomes));
    }
  }

  /** The row under id `base + i` is record `i`, with that id. */
  ghost predicate InsertedAt(rows: seq<Result<Record, SeedError>>, i: int, s: Store, base: int) {
    && 0 <= i < |rows|
    && rows[i].Success?
    && base + i in s.rows
    && s.rows[base + i] == rows[i].value["id" := JNum(base + i)]
  }

  /** The i-th new id holds the i-th record. */
  lemma {:induction false} InsertRowsNewRows(rows: seq<Result<Record, SeedError>>, s: Store, outcomes: seq<DbOutcome>)
    ensures forall i :: 0 <= i < InsertRows(rows, s, outcomes).0.nextId - s.nextId ==>
      InsertedAt(rows, i, InsertRows(rows, s, outcomes).0, s.nextId)
    decreases |rows|
  {
    if |rows| > 0 {
      match rows[0]
      case Failure(_) =>
      case Success(row) =>
        match OutcomeAt(outcomes)
        case DbError(_) =>
        case DbOk =>
          var s1 := Insert(s, row);
          assert s1.nextId == s.nextId + 1;
          var rest := InsertRows(rows[1..], s1, Rest(outcomes));
          assert InsertRows(rows, s, outcomes) == rest;
          InsertRowsNewRows(rows[1..], s1, Rest(outcomes));
          InsertRowsKeepsRows(rows[1..], s1, Rest(outcomes));
          assert rest.0.rows[s.nextId] == s1.rows[s.nextId];
          InsertedAtShift(rows, row, rest.0, s.nextId, s1.nextId, rest.0.nextId - s.nextId);
    }
  }

  /** Record 0 under `base` and records 1.. under `base + 1` onwards: records 0.. under `base` onwards. */
  lemma InsertedAtShift(rows: seq<Result<Record, SeedError>>, row: Record, t: Store, base: int, next: int, n: int)
    requires 0 < n <= |rows| && rows[0] == Success(row) && next == base + 1
    requires base in t.rows && t.rows[base] == row["id" := JNum(base)]
    requires forall j :: 0 <= j < n - 1 ==> InsertedAt(rows[1..], j, t, next)
    ensures forall i :: 0 <= i < n ==> InsertedAt(rows, i, t, base)
  {
    forall i | 0 <= i < n
      ensures InsertedAt(rows, i, t, base)
    {
      if i > 0 {
        assert InsertedAt(rows[1..], i - 1, t, next);
        assert rows[i] == rows[1..][i - 1];
      }
    }
  }

  /** The inserts keep the table valid. */
  lemma {:induction false} InsertRowsValid(rows: seq<Result<Record, SeedError>>, s: Store, outcomes: seq<DbOutcome>)
    requires Valid(s)
    ensures Valid(InsertRows(rows, s, outcomes).0)
    decreases |rows|
  {
    if |rows| > 0 {
      match rows[0]
      case Failure(_) =>
      case Success(row) =>
        match OutcomeAt(outcomes)
        case DbError(_) =>
        case DbOk =>
          InsertRowsValid(rows[1..], Insert(s, row), Rest(outcomes));
    }
  }

  /**
   * What a run of `insertCompanies` leaves behind: the table keeps its rows
   * and gains one per company inserted before the first failure, under
   * consecutive fresh ids, each holding that company's `companyData`.
   */
  lemma InsertCompaniesEffect(companies: seq<Json>, now: Json, s: Store, outcomes: seq<DbOutcome>)
    requires Valid(s)
    ensures var r := InsertCompanies(companies, now, s, outcomes);
      && Valid(r.0)
      && (r.1.None? <==> r.0.nextId == s.nextId + |companies|)
      && r.0.rows.Keys == s.rows.Keys + IdsBetween(s.nextId, r.0.nextId)
      && (forall k :: k in s.rows ==> r.0.rows[k] == s.rows[k])
      && (forall i :: 0 <= i < r.0.nextId - s.nextId ==> InsertedAt(MapCompanies(companies, now), i, r.0, s.nextId))
  {
    var rows := MapCompanies(companies, now);
    var r := InsertRows(rows, s, outcomes);
    assert InsertCompanies(companies, now, s, outcomes) == r;
    InsertRowsValid(rows, s, outcomes);
    InsertRowsKeepsRows(rows, s, outcomes);
    InsertRowsNewRows(rows, s, outcomes);
  }
}
