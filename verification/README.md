# Biotech company tracker — a Dafny model of its core

The tracker is a small Next.js application for keeping notes on biotech
companies and job applications. A browser page lists the stored companies in
a sortable table. It opens an add/edit form and sends create, update and
delete requests to one HTTP route, `/api/companies`. That route reads and
writes a single PostgreSQL table through an ORM. A separate script asks a
language model for company data, reshapes each answer into a table row and
inserts the rows one by one.

This project models that core as pure functions over immutable values and
proves what each part promises:

- `Json` — parsed JSON values. A record is a map from field names to values, and an absent key is `undefined`.
- `Store` — the table behind the route's `biotechCompanies` schema object: rows keyed by their serial id, the next serial value, and the four statements the route issues. Whether the database accepts a statement is an input (`DbOutcome`).
- `Route` — the `GET`, `POST`, `PUT` and `DELETE` handlers, each a transition of the table plus an HTTP response.
- `CompanyList` — the table's sort state machine, its comparator and a sort over it.
- `CompanyForm` — the form's record state: initial value, the effect that loads `initialData`, change events and submission.
- `Page` — the home page's view-model and one transition per handler. The network's answers and the confirmation dialog are inputs.
- `PopulateCompanies` — the seeding script: finding the company list in the model's answer, the field mapping with the location split, and the insert loop that stops at the first failure.
- `Text` — the JavaScript string operations the core relies on: `trim`, `split`, `parseInt`, number-to-string and string order, compared character by character.
- `Flows` — a request the page builds, handled by the route.

## Model

| member | source | states |
|---|---|---|
| Route.FixTimestamp | src/app/api/companies/route.ts:23 | only the empty string changes, and it becomes `null`; the result is never the empty string |
| Route.FixTimestampIdempotent | src/app/api/companies/route.ts:23 | normalising twice is normalising once |
| Route.FixData | src/app/api/companies/route.ts:24-29 | the three timestamp fields are normalised; every other field is exactly as submitted, absent ones included |
| Route.RowsJson | src/app/api/companies/route.ts:9 | the response array has one object per selected row, in order |
| Route.RowsJsonComplete | src/app/api/companies/route.ts:8-9 | on a valid table the list response has one object per row and contains every row |
| Route.HandleGet | src/app/api/companies/route.ts:6-16 | a failed select answers 500 "Failed to fetch companies"; otherwise 200 with an array of stored rows which, on a valid table, holds every row and has as many entries as the table has rows |
| Route.HandlePost | src/app/api/companies/route.ts:18-44 | 200 exactly when the body was read and the insert succeeded; then the new row sits under a fresh id, carries that id, the submitted non-timestamp fields and the normalised timestamps; no other row changes and the stored row is returned; errors answer 500 with `details` and store nothing; validity is kept |
| Route.HandlePostNoEmptyTimestamps | src/app/api/companies/route.ts:22-29 | creating a company never leaves an empty string in a timestamp column |
| Route.IdKey | src/app/api/companies/route.ts:53 | only a numeric `id` selects a row |
| Route.HandlePut | src/app/api/companies/route.ts:46-62 | 200 exactly when the body was read, the update succeeded and its numeric `id` names a stored row; then that row takes every other submitted field as submitted, keeps the rest, and is returned; every other outcome, including an `id` that names no row (the empty result has no JSON text, so the reply throws inside the `try`), answers 500 "Failed to update company" and changes nothing; the id set, the serial and all other rows are unchanged; validity is kept |
| Route.HandlePutForwardsEmptyTimestamp | src/app/api/companies/route.ts:49-54 | a valid table with no empty timestamps, and an update whose `contactDate` is "", leaves an empty timestamp behind |
| Route.HandlePutNormalised | src/app/api/companies/route.ts:46-62 | the update handler with timestamp normalisation: the same 200 and 500 cases and frame as the handler, submitted timestamp fields written normalised, other fields as submitted, and no empty timestamp ever stored |
| Route.FixPresent | src/app/api/companies/route.ts:23 | normalises the timestamp fields that are present, keeps every other field, adds no field |
| Route.HandleDelete | src/app/api/companies/route.ts:64-81 | a missing or empty `id` answers 400 "ID is required" and changes nothing; 200 `{success: true}` exactly when `parseInt(id)` is a number and the delete succeeded; then only the row with that key is gone; otherwise 500 "Failed to delete company" with nothing changed |
| Store.Insert | src/app/api/companies/route.ts:32-35 | one row is added under the next serial id, which was unused on a valid table; it carries that id and every other field of the data; the other rows stay; the serial advances by one; validity is kept |
| Store.UpdateWhere | src/app/api/companies/route.ts:50-54 | a row is returned exactly when the key names one; it is the old row overlaid with the changes; a miss changes nothing; validity is kept when `id` is not among the changes |
| Store.DeleteWhere | src/app/api/companies/route.ts:71-73 | the key is removed from the table and every other row is kept |
| Store.SelectAll | src/app/api/companies/route.ts:8 | every selected entry is a stored row |
| Store.SelectAllComplete | src/app/api/companies/route.ts:8 | on a valid table the select lists every row, each once |
| Text.LexLess | src/components/CompanyList.tsx:33 | string order: a greater string is not empty, and a proper prefix is smaller than the string it begins |
| Text.LexLessFirstDifference | src/components/CompanyList.tsx:33 | after a common prefix, the first differing character decides: `a` is below `b` exactly when its character there has the smaller code point |
| Text.LexLessIrreflexive | src/components/CompanyList.tsx:33 | no string is greater than itself |
| Text.LexLessAsymmetric | src/components/CompanyList.tsx:33 | two strings are never each greater than the other |
| Text.LexLessTotal | src/components/CompanyList.tsx:33 | of two different strings one is greater |
| Text.LexLessTransitive | src/components/CompanyList.tsx:33 | string order is transitive |
| Text.Trim | scripts/populateCompanies.ts:96-97 | the result is the input without some leading and trailing whitespace, and it starts and ends with non-whitespace |
| Text.TrimIdempotent | scripts/populateCompanies.ts:96-97 | trimming twice is trimming once |
| Text.Split | scripts/populateCompanies.ts:96-97 | at least one piece, and no piece contains the separator |
| Text.SplitPieces | scripts/populateCompanies.ts:96-97 | the first piece is the text before the first separator; there is a second piece exactly when the separator occurs; the remaining pieces split the text after it |
| Text.JoinSplit | scripts/populateCompanies.ts:96-97 | joining the pieces with the separator gives back the text |
| Text.SplitJoin | scripts/populateCompanies.ts:96-97 | splitting a join of separator-free pieces gives back the pieces |
| Text.IntToDecimal | src/app/page.tsx:75 | the template literal writes a minus sign exactly for a negative number, then at least one decimal digit, with no leading zero; zero is written `0` |
| Text.ParseInt | src/app/api/companies/route.ts:73 | `parseInt` is `NaN` exactly when no digit follows the leading whitespace and the optional sign |
| Text.ParseIntOfDecimal | src/app/api/companies/route.ts:73 | `parseInt` reads back every integer written in decimal |
| CompanyList.HandleSort | src/components/CompanyList.tsx:18-25 | a click sorts by the clicked column; the current column flips direction; another column starts ascending |
| CompanyList.HandleSortTwiceCurrent | src/components/CompanyList.tsx:19-20 | two clicks on the current column restore the sort state |
| CompanyList.HandleSortTwiceOther | src/components/CompanyList.tsx:21-24 | two clicks on another column end descending on it |
| CompanyList.SortFieldAlwaysSortable | src/components/CompanyList.tsx:15-25 | from the initial state, any sequence of header clicks leaves the table sorted by one of the four sortable fields |
| CompanyList.Compare | src/components/CompanyList.tsx:27-35 | the comparator answers -1, 0 or 1, and 0 only when both values are undefined |
| CompanyList.Greater | src/components/CompanyList.tsx:33 | `>` on two defined values is never true between a string and a non-string; on `null`, booleans and numbers it is the numeric order of their number values |
| CompanyList.GreaterAsymmetric | src/components/CompanyList.tsx:33 | two values are never each greater than the other |
| CompanyList.UndefinedSortsLast | src/components/CompanyList.tsx:30-32 | an undefined value sorts after any defined one, in both directions |
| CompanyList.DescendingNegatesAscending | src/components/CompanyList.tsx:33-34 | for defined values, descending is ascending negated |
| CompanyList.AscendingIsGreater | src/components/CompanyList.tsx:33 | ascending answers 1 exactly when the first value is greater; equal values answer -1 ascending and 1 descending |
| CompanyList.GreaterIrreflexive | src/components/CompanyList.tsx:33 | no value is greater than itself |
| CompanyList.CompareStringsAntisymmetric | src/components/CompanyList.tsx:33-34 | for different strings, swapping them negates the comparison |
| CompanyList.InOrderTransitive | src/components/CompanyList.tsx:30-34 | on strings and undefined, the comparator's order is transitive |
| CompanyList.Insert | src/components/CompanyList.tsx:27-35 | one insertion step adds exactly the record, keeps undefined values last, and keeps the list in order when all values are strings |
| CompanyList.InsertKeepsUndefinedOrder | src/components/CompanyList.tsx:30 | the insertion step keeps the records the comparator ties (both undefined) in input order, and adds an undefined record behind them |
| CompanyList.SortCompanies | src/components/CompanyList.tsx:27-35 | the sorted copy is a permutation of the list; it puts every undefined sort value last, in input order, as a stable sort does with ties; it is in the comparator's order when the defined values are strings |
| CompanyForm.FormFieldsDistinct | src/components/CompanyForm.tsx:15-34 | the form starts with nineteen distinct fields |
| CompanyForm.DefaultForm | src/components/CompanyForm.tsx:15-34 | every form field, and only those, starts as the empty string |
| CompanyForm.InitialState | src/components/CompanyForm.tsx:15-36 | a field of `initialData` takes its value; any other form field is the empty string; with no data the state is the default form |
| CompanyForm.LoadInitialData | src/components/CompanyForm.tsx:38-42 | when `initialData` is given it replaces the state; otherwise the state stays |
| CompanyForm.MountedState | src/components/CompanyForm.tsx:15-42 | once mounted with data the form holds exactly that data, with no defaults surviving; without data it holds the default form |
| CompanyForm.HandleChange | src/components/CompanyForm.tsx:44-54 | the named field takes the input's value and no other field changes |
| CompanyForm.HandleChangeSameValue | src/components/CompanyForm.tsx:50-53 | writing back a field's current value changes nothing |
| CompanyForm.HandleSubmit | src/components/CompanyForm.tsx:56-59 | the parent receives the form state field for field |
| Page.FetchCompanies | src/app/page.tsx:19-36 | loading ends; an array replaces the list and clears the error; any other value empties the list; a failure empties it and shows the load error; selection and form stay |
| Page.AddCompany | src/app/page.tsx:107-110 | the selection is cleared and the form shown; list, loading and error stay |
| Page.HandleEdit | src/app/page.tsx:66-69 | the form opens on the chosen company; list, loading and error stay |
| Page.Cancel | src/app/page.tsx:164-167 | the form closes and the selection is dropped; nothing else changes |
| Page.SaveRequestFor | src/app/page.tsx:41-50 | PUT exactly when a company is selected, with the selection's id and every other form field; POST otherwise, with the form data as it is; always to `/api/companies` |
| Page.HandleSubmit | src/app/page.tsx:38-64 | an ok save refetches the list, closes the form and drops the selection; a failed save shows the save error and keeps everything else |
| Page.DeleteRequestFor | src/app/page.tsx:72-77 | a request is sent only after confirmation, and its `id` parameter is the id in decimal |
| Page.HandleDelete | src/app/page.tsx:71-89 | declining changes nothing; an ok delete refetches; a failed one shows the delete error; selection and form stay |
| Page.DeleteUrlId | src/app/api/companies/route.ts:66-67 | the handler finds an `id` parameter exactly when the URL starts with `/api/companies?id=`, and the URL is that prefix followed by the parameter |
| Page.Step | src/app/page.tsx:19-89 | a handler that ends by fetching ends loading and shows what the fetch brought; any other handler leaves the list and the loading flag alone; no handler leaves a selected company without its open form |
| Page.RunSelectionShown | src/app/page.tsx:10-11 | after any run of handlers from the first render, a selected company is shown in the open form |
| Page.RunLoading | src/app/page.tsx:12-36 | the page is loading exactly until the first handler that fetches has finished; until then the list is empty |
| Page.RunShowsLatestFetch | src/app/page.tsx:19-36 | after any run of handlers, the list on screen is what the latest fetch brought back: its array, or nothing |
| PopulateCompanies.FetchCompanyData | scripts/populateCompanies.ts:54-80 | an array under `companies` is the list; an object there is a one-company list; otherwise a root with a truthy `company_name` is the list; anything else fails; a `null` answer throws; the not-an-array error never occurs |
| PopulateCompanies.CompaniesValue | scripts/populateCompanies.ts:57-69 | the parse block binds an array or throws; it throws on a `null` answer exactly, and otherwise only for want of companies |
| PopulateCompanies.SplitLocation | scripts/populateCompanies.ts:96-97 | with no location, city and state are both undefined; a location that is not a string throws; a string location always gives a city |
| PopulateCompanies.SplitLocationMeaning | scripts/populateCompanies.ts:96-97 | the city is the trimmed text before the first comma; the state is the trimmed text after it, up to a second comma; with no comma there is no state |
| PopulateCompanies.CompanyData | scripts/populateCompanies.ts:93-109 | a `null` company throws; otherwise mapping fails exactly when the location cannot be split |
| PopulateCompanies.CompanyDataLocation | scripts/populateCompanies.ts:96-97 | the mapped record's city and state are those of the location rule |
| PopulateCompanies.SeedRecordLocation | scripts/populateCompanies.ts:96-97 | the record holds the given city and state |
| PopulateCompanies.SeedRecordCopies | scripts/populateCompanies.ts:93-109 | name, website, description and products are copied from their snake_case properties, and are absent when the property is |
| PopulateCompanies.SeedRecordMoreCopies | scripts/populateCompanies.ts:93-109 | size, industry, founding year, headquarters and notes are copied from their snake_case properties |
| PopulateCompanies.SeedRecordContactAndTimes | scripts/populateCompanies.ts:104-108 | email and phone come from `contact_information`; both timestamps are the run's time |
| PopulateCompanies.SeedRecordOnlySeedFields | scripts/populateCompanies.ts:93-109 | the record has no field beyond the fifteen the mapping names |
| PopulateCompanies.MapCompanies | scripts/populateCompanies.ts:92-93 | one mapping result per company, in order |
| PopulateCompanies.InsertRows | scripts/populateCompanies.ts:92-117 | the serial advances by the number of rows inserted; no error is reported exactly when every company went in; the new keys are the consecutive fresh ids |
| PopulateCompanies.InsertCompanies | scripts/populateCompanies.ts:87-118 | at most one row per company is added; the run reports no error exactly when every company went in |
| PopulateCompanies.InsertRowsStopsAtFirstFailure | scripts/populateCompanies.ts:91-117 | company i is inserted exactly when it and every company before it mapped and was accepted |
| PopulateCompanies.InsertRowsKeepsRows | scripts/populateCompanies.ts:92-111 | rows already in the table are untouched |
| PopulateCompanies.InsertRowsNewRows | scripts/populateCompanies.ts:92-111 | the i-th fresh id holds the i-th company's record, with that id |
| PopulateCompanies.InsertRowsValid | scripts/populateCompanies.ts:111 | the inserts keep the table valid |
| PopulateCompanies.InsertCompaniesEffect | scripts/populateCompanies.ts:87-118 | a run keeps the old rows and adds, under consecutive fresh ids, each company's record up to the first failure; the table stays valid |
| Flows.DeleteRemovesChosenRow | src/app/page.tsx:71-83 | confirming a delete on the page removes exactly the chosen row, because the handler parses back the id the page wrote |
| Flows.EditUpdatesSelectedRow | src/app/page.tsx:41-51 | saving an edited company writes every submitted field to that company's row, keeps its other fields and all other rows, and returns the row |
| Flows.AddCreatesRow | src/app/page.tsx:41-51 | saving a new company stores one new row under a fresh id with the submitted non-timestamp fields |

## Left out

- Rendering: JSX, styling, the empty-list message and the sort arrows are presentation only.
- HTTP and `fetch`: requests and responses are values. Network failures, non-ok statuses and unreadable bodies are inputs to the page transitions.
- Concurrency: async interleavings, React's batching of state updates and the loading flag's intermediate `true` are not modelled. Each handler is one atomic transition.
- `window.confirm` is an input (`confirmed`).
- The drizzle schema file `src/db/schema` is not part of this model. Column types and defaults are not modelled: a row holds what was written, plus its serial `id`. As a result, a client-supplied `id` in a POST body is overwritten by the serial. The database returns `null` for a column that was never written. The comparator treats `null` as a defined value, so on rows the page fetches, an unset column sorts among the defined values, and the undefined-last rule does not apply.
- The database decides each statement through a `DbOutcome` input. Type errors such as an empty-string timestamp are therefore not derived from column types.
- Serial values consumed by failed inserts are not modelled: the serial advances only on success.
- `SELECT` without `ORDER BY` has no guaranteed order. `Store.SelectAll` returns ascending ids, and its contracts do not depend on that order.
- JSON numbers are integers: floating point is not modelled.
- `parseInt`'s radix prefixes (`0x`) are not modelled.
- An `id` that parses to `NaN` is treated as a statement the database rejects, giving 500.
- A string `id` in a PUT body never matches a row in the model. The database would coerce a numeric string.
- Non-object request bodies and non-object rows in a fetched array are not modelled. Own properties whose value is `undefined` are modelled as absent keys.
- CompanyList.Compare: a string compared with a number with `>` is false in the model. JavaScript would convert the string to a number. `Greater` only coerces `null`, booleans and numbers.
- CompanyList.SortCompanies: the comparator is not consistent in the sense ECMA-262 gives for `Array.prototype.sort`. A defined value compared with itself answers -1 or 1, not 0. So whenever any record has a defined sort value, the language promises only a permutation, and the resulting order is implementation-defined. The model sorts with a stable insertion sort instead of the engine's algorithm. Undefined-last, string order and the input order among undefined values are properties of that insertion sort, not promises of the language.
- CompanyList.SortCompanies: the order is proved only when all defined sort values are strings. For other mixes, only the permutation and undefined-last are stated. Equal defined values stay in input order in the model, and no contract states it.
- Text.LexLess: characters are Unicode code points, while JavaScript compares UTF-16 code units. The two orders differ only when the first position where the strings differ holds a character in U+E000 to U+FFFF in one and a character above U+FFFF in the other. For example, `"\uFF5E" > "\u{1F600}"` holds in JavaScript, and the model orders them the other way. Lone surrogates cannot be represented. String lengths are counted in code points.
- Page.AddCompany: the form's record state across page events is not modelled. The Add button is always shown. If it is pressed while the form is open on an edit, React keeps the same `CompanyForm` instance, which has no `key`. The effect on `initialData` does nothing when the data is `undefined`, so the form keeps the edited company's fields, including its `id`. The model only states that the selection is cleared and the form is shown.
- CompanyForm: the status `<select>`'s six options (empty, Applied, Interviewing, Offered, Rejected, Not Applied) are markup only. `HandleChange` accepts any string for `applicationStatus`, as the change handler does.
- Page.DeleteUrlId: the handler's `URL`/`searchParams` parsing is modelled only for the URLs the page builds. Percent-decoding, other parameters and repeated `id`s are not modelled.
- PopulateCompanies: the OpenAI request, `dotenv`, `JSON.parse` and its error, the `!response` check, logging and `process.exit` are not modelled. The model starts from the parsed JSON value.
- PopulateCompanies.InsertCompaniesEffect: `new Date()` is one input `now` for the whole run, not a fresh time per company.
- `scripts/seedCompanies.js` is outside the modelled core.
- Differences from the written design:
  - an update whose `id` matches no row answers 500 "Failed to update company", not a not-found error;
  - a delete of an id with no row still answers `{success: true}`.

## Findings

| source | as written | input that shows it | evidently intended | confidence | as-written member | corrected member |
|---|---|---|---|---|---|---|
| src/app/api/companies/route.ts:46-54 | the update handler sends the submitted fields to the database without the create handler's empty-timestamp normalisation | a table with row 1, then `PUT {"id": 1, "contactDate": ""}`: this is what an edit with a cleared date sends | cleared timestamps are written as `null`, as in the create handler (lines 22-29) | medium; not executed | Route.HandlePutForwardsEmptyTimestamp | Route.HandlePutNormalised |
