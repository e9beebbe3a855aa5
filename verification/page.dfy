/**
 * The home page as a view-model: its state, and one atomic transition per
 * handler. What the network and the user answer (the fetched value, whether
 * a save or delete response was ok, the confirmation dialog) are inputs.
 */
module Page {
  import opened Wrappers
  import opened Json
  import opened Text

  datatype PageState = PageState(
    companies: seq<Record>,
    selected: Option<Record>,
    formVisible: bool,
    loading: bool,
    error: Option<string>)

  /**
   * What `fetch("/api/companies")` followed by `response.json()` yields: a
   * rejected fetch, a non-ok status or an unreadable body is `FetchFailed`.
   */
  datatype FetchResult = FetchFailed | FetchedArray(rows: seq<Record>) | FetchedOther

  datatype HttpMethod = Post | Put

  /** A request the page sends: verb, URL and (for a save) the JSON body. */
  datatype SaveRequest = SaveRequest(verb: HttpMethod, url: string, body: Record)

  const ApiUrl := "/api/companies"
  const LoadErrorMessage := "Failed to load companies. Please try again later."
  const SaveErrorMessage := "Failed to save company. Please try again."
  const DeleteErrorMessage := "Failed to delete company. Please try again."

  /** The state on first render: nothing loaded yet, loading, no form. */
  const Initial := PageState([], None, false, true, None)

  /**
   * `fetchCompanies`: an array replaces the list, any other value empties it,
   * a failure empties it and sets the load error. Loading ends either way.
   */
  function FetchCompanies(p: PageState, result: FetchResult): (q: PageState)
    ensures !q.loading
    ensures q.selected == p.selected && q.formVisible == p.formVisible
    ensures result.FetchedArray? ==> q.companies == result.rows && q.error == None
    ensures result.FetchedOther? ==> q.companies == [] && q.error == None
    ensures result.FetchFailed? ==> q.companies == [] && q.error == Some(LoadErrorMessage)
  {
    match result
    case FetchedArray(rows) => p.(companies := rows, error := None, loading := false)
    case FetchedOther => p.(companies := [], error := None, loading := false)
    case FetchFailed => p.(companies := [], error := Some(LoadErrorMessage), loading := false)
  }

  /** "Add Company": no selection, and the form shown. */
  function AddCompany(p: PageState): (q: PageState)
    ensures q.selected == None && q.formVisible
    ensures q.companies == p.companies && q.loading == p.loading && q.error == p.error
  {
    p.(selected := None, formVisible := true)
  }

  /** `handleEdit`: the form, filled with the chosen company. */
  function HandleEdit(p: PageState, company: Record): (q: PageState)
    ensures q.selected == Some(company) && q.formVisible
    ensures q.companies == p.companies && q.loading == p.loading && q.error == p.error
  {
    p.(selected := Some(company), formVisible := true)
  }

  /** The form's `onCancel`: the form closes and the selection is dropped. */
  function Cancel(p: PageState): (q: PageState)
    ensures q.selected == None && !q.formVisible
    ensures q.companies == p.companies && q.loading == p.loading && q.error == p.error
  {
    p.(selected := None, formVisible := false)
  }

  /**
   * The request `handleSubmit` sends: PUT exactly when a company is
   * selected, with `id` taken from the selection (an `undefined` id leaves
   * the body without one); POST otherwise, with the form data as it is.
   */
  function SaveRequestFor(p: PageState, formData: Record): (r: SaveRequest)
    ensures r.url == ApiUrl
    ensures r.verb == Put <==> p.selected.Some?
    ensures p.selected.None? ==> r.body == formData
    ensures p.selected.Some? ==> Get(r.body, "id") == Get(p.selected.value, "id")
    ensures p.selected.Some? ==> forall f :: f != "id" ==> Get(r.body, f) == Get(formData, f)
  {
    match p.selected
    case Some(c) => SaveRequest(Put, ApiUrl, SetOpt(formData, "id", Get(c, "id")))
    case None => SaveRequest(Post, ApiUrl, formData)
  }

  /**
   * `handleSubmit` once the response is in: when it is ok, the list is
   * fetched again and then the form closes and the selection is dropped;
   * otherwise the save error is shown and everything else stays.
   */
  function HandleSubmit(p: PageState, saved: bool, refetch: FetchResult): (q: PageState)
    ensures saved ==> !q.formVisible && q.selected == None && !q.loading
    ensures saved ==> q == FetchCompanies(p, refetch).(formVisible := false, selected := None)
    ensures !saved ==> q == p.(error := Some(SaveErrorMessage))
  {
    var cleared := p.(error := None);
    if saved then
      FetchCompanies(cleared, refetch).(formVisible := false, selected := None)
    else
      cleared.(error := Some(SaveErrorMessage))
  }

  /** The URL `handleDelete` requests: `/api/companies?id=${id}`. */
  function DeleteUrl(id: int): string {
    ApiUrl + "?id=" + IntToDecimal(id)
  }

  /** The `id` query parameter of a delete URL, as the handler reads it. */
  function DeleteUrlId(url: string): (r: Option<string>)
    ensures r.Some? <==> ApiUrl + "?id=" <= url
    ensures r.Some? ==> url == ApiUrl + "?id=" + r.value
  {
    var prefix := ApiUrl + "?id=";
    if |prefix| <= |url| && url[..|prefix|] == prefix then Some(url[|prefix|..]) else None
  }

  /**
   * `handleDelete` once the dialog and the response are in: declining does
   * nothing at all; after confirming, an ok response refetches the list and
   * any other outcome shows the delete error.
   */
  function HandleDelete(p: PageState, confirmed: bool, deleted: bool, refetch: FetchResult): (q: PageState)
    ensures !confirmed ==> q == p
    ensures confirmed && deleted ==> q == FetchCompanies(p, refetch)
    ensures confirmed && !deleted ==> q == p.(error := Some(DeleteErrorMessage))
    ensures q.selected == p.selected && q.formVisible == p.formVisible
  {
    if !confirmed then p
    else
      var cleared := p.(error := None);
      if deleted then FetchCompanies(cleared, refetch)
      else cleared.(error := Some(DeleteErrorMessage))
  }

  /** A delete request is sent only after confirmation. */
  function DeleteRequestFor(confirmed: bool, id: int): (r: Option<string>)
    ensures r.Some? <==> confirmed
    ensures r.Some? ==> DeleteUrlId(r.value) == Some(IntToDecimal(id))
  {
    if confirmed then
      var url := DeleteUrl(id);
      assert url[..|ApiUrl + "?id="|] == ApiUrl + "?id=";
      assert url[|ApiUrl + "?id="|..] == IntToDecimal(id);
      Some(url)
    else None
  }

  // ---------------------------------------------------------------------
  // The page over a run of handlers
  // ---------------------------------------------------------------------

  /**
   * One handler running to completion. `Fetched` is `fetchCompanies` on its
   * own, which is how the mount effect runs it.
   */
  datatype Event =
    | Fetched(result: FetchResult)
    | AddClicked
    | EditClicked(company: Record)
    | Cancelled
    | Submitted(saved: bool, refetch: FetchResult)
    | DeleteClicked(confirmed: bool, deleted: bool, refetch: FetchResult)

  /** The handlers that end by fetching the list again. */
  predicate Refetches(e: Event) {
    e.Fetched? || (e.Submitted? && e.saved) || (e.DeleteClicked? && e.confirmed && e.deleted)
  }

  /** What a refetching handler's fetch brought back. */
  function RefetchResult(e: Event): FetchResult
    requires Refetches(e)
  {
    if e.Fetched? then e.result else e.refetch
  }

  /** The list a fetch puts on screen: its array, or nothing. */
  function Shown(result: FetchResult): seq<Record> {
    if result.FetchedArray? then result.rows else []
  }

  /** A selected company is only ever shown in the open form. */
  predicate SelectionShown(p: PageState) {
    p.selected.Some? ==> p.formVisible
  }

  /**
   * The page after one handler. A handler that refetches ends loading and
   * shows what the fetch brought; every other handler leaves the list and
   * the loading flag alone. No handler leaves a selection without its form.
   */
  function Step(p: PageState, e: Event): (q: PageState)
    ensures Refetches(e) ==> !q.loading && q.companies == Shown(RefetchResult(e))
    ensures !Refetches(e) ==> q.loading == p.loading && q.companies == p.companies
    ensures SelectionShown(p) ==> SelectionShown(q)
  {
    match e
    case Fetched(result) => FetchCompanies(p, result)
    case AddClicked => AddCompany(p)
    case EditClicked(company) => HandleEdit(p, company)
    case Cancelled => Cancel(p)
    case Submitted(saved, refetch) => HandleSubmit(p, saved, refetch)
    case DeleteClicked(confirmed, deleted, refetch) => HandleDelete(p, confirmed, deleted, refetch)
  }

  /** The page after a run of handlers from the first render. */
  function Run(events: seq<Event>): PageState {
    if |events| == 0 then Initial
    else Step(Run(events[..|events| - 1]), events[|events| - 1])
  }

  lemma {:induction false} RunSelectionShown(events: seq<Event>)
    ensures SelectionShown(Run(events))
  {
    if |events| > 0 {
      RunSelectionShown(events[..|events| - 1]);
    }
  }

  /** The spinner stays until the first fetch completes, and then never comes back. */
  lemma {:induction false} RunLoading(events: seq<Event>)
    ensures Run(events).loading <==> forall i :: 0 <= i < |events| ==> !Refetches(events[i])
    ensures (forall i :: 0 <= i < |events| ==> !Refetches(events[i])) ==> Run(events).companies == []
  {
    if |events| > 0 {
      var pre := events[..|events| - 1];
      RunLoading(pre);
      assert forall i :: 0 <= i < |pre| ==> pre[i] == events[i];
    }
  }

  /** The list on screen is what the latest fetch brought back. */
  lemma {:induction false} RunShowsLatestFetch(events: seq<Event>, i: int)
    requires 0 <= i < |events| && Refetches(events[i])
    requires forall j :: i < j < |events| ==> !Refetches(events[j])
    ensures Run(events).companies == Shown(RefetchResult(events[i]))
  {
    if i < |events| - 1 {
      var pre := events[..|events| - 1];
      assert forall j :: 0 <= j < |pre| ==> pre[j] == events[j];
      RunShowsLatestFetch(pre, i);
    }
  }
}
