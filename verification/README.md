# Listing Uploader: the sheet import, the listing upload and the row state machine

This Dafny project models three pieces of logic in the Listing Uploader web
application. The application reads products from a Google Sheet and publishes
each one as an Etsy listing.

- **Sheet import** (`pages/api/fetchSheetData.ts`, module `SheetImport`). The
  handler checks its three request parameters. The Sheets read is an abstract
  `SheetsResult`. A sheet with fewer than two rows is refused. The first row
  is a header that names a product property per column. Every data row is
  mapped to the eight `Product` properties. Rows without a truthy `title` and
  `price` are dropped.
- **Listing upload** (`pages/api/uploadEtsyProduct.ts`, module `EtsyUpload`).
  The handler validates the `Bearer ` authorization header and extracts and
  trims the token. It forwards `"Bearer " + token` to a listing call that is a
  parameter of the model. It maps the call's result to 401, the mirrored
  upstream status, 200 or 500.
- **The uploader page** (`app/page.tsx`, modules `Uploader` and
  `SessionWatch`). Loading a sheet replaces the collection, with every row
  `not_listed`. Publishing first shows every non-`listed` row as `listing`.
  It then settles each submitted row from its reply, to `listed` or
  `listing_failed`. "Clear listed" is a filter. The status column maps each
  status to a colour and a label. The session effect decides whether to drop
  the Google session now, after a delay, or not at all.

JavaScript semantics are written out where the code relies on them, in
modules `JsValues` and `JsStrings`:

- Truthiness: an empty string, `0`, `false`, `null` and `undefined` are falsy.
  Objects and arrays are truthy.
- `undefined` is `None`. A spreadsheet cell is a `string`. A cell past a row's
  end is `None`.
- `String.prototype.replace` with a string pattern replaces only the first
  occurrence.
- `trim` strips the ECMAScript white-space and line-terminator code points.

The concurrent upload calls of a publish are an order-preserving map driven
by an oracle. `replies[j]` is the parsed body that the j-th submitted row gets
back. `order` is the order in which the calls settle. Only that order decides
which failure ends up in the single toast slot.

## Model

| member | source | states |
|---|---|---|
| `SheetImport.Handle` | pages/api/fetchSheetData.ts:6-48 | A falsy `sheetId`, `range` or `accessToken` gives 400 "Missing required fields.". With the parameters present, absent values or fewer than two rows give 400 "No product data found in sheet.". A read error with a `response` gives 500 "statusText: message". Every error message is non-empty. A 200 answer exists only when the read returned at least two rows. The handler crashes exactly when the read throws an error without a `response`. |
| `SheetImport.MissingParamsSkipFetch` | pages/api/fetchSheetData.ts:9-18 | With a parameter missing, the reply is the same whatever the Sheets read would have produced, so the read is never consulted. |
| `SheetImport.LastIndex` | pages/api/fetchSheetData.ts:26-28 | Finds the column of a header name that no later column repeats, or reports that no column carries that name. |
| `SheetImport.RecordLastWins` | pages/api/fetchSheetData.ts:25-28 | The object built by the `forEach` over the header has a key exactly when some column carries that name. Its value is the cell of the last such column. |
| `SheetImport.FieldValueIsLastColumn` | pages/api/fetchSheetData.ts:23-28 | `obj[h]` is the cell under the last column named `h`. It is `undefined` when that column is past the row's end or no column is named `h`. |
| `SheetImport.OtherColumnsIgnored` | pages/api/fetchSheetData.ts:32-41 | Changing a cell under a column that is not one of the eight product names leaves the product unchanged. |
| `SheetImport.Candidate` | pages/api/fetchSheetData.ts:24-41 | A row that yields a product always has a non-empty `title` and `price`. |
| `SheetImport.Candidates` | pages/api/fetchSheetData.ts:24 | There is one candidate per data row, and the j-th candidate is row j's, so the `map` keeps the rows' order. |
| `SheetImport.Decode` | pages/api/fetchSheetData.ts:24-42 | Decoding never yields more products than there are data rows. Every product has a present, non-empty `title` and `price`. |
| `SheetImport.DropNulls` | pages/api/fetchSheetData.ts:42 | The filter is never longer than its input. Which entries it keeps, and in what order, is stated by `SheetImport.DropNullsByIndex`. |
| `SheetImport.SomeIndices` | pages/api/fetchSheetData.ts:42 | Lists the positions of the non-null entries in strictly increasing order, and every non-null position is listed. |
| `SheetImport.DropNullsByIndex` | pages/api/fetchSheetData.ts:42 | The filter's k-th element is the k-th non-null entry, so the filter keeps order. |
| `SheetImport.SuccessIsDataRowsBelowHeader` | pages/api/fetchSheetData.ts:19-44 | The 200 answer holds at most `rows.length - 1` products. The k-th product is the projection of the k-th kept row below the header, and kept positions increase. A data row is kept exactly when its `title` and `price` are truthy. Row 0 is only ever the header. |
| `SheetImport.ExampleSheet` | pages/api/fetchSheetData.ts:23-44 | The three-row example sheet ("Mug", an empty title, "Shirt") decodes to Mug then Shirt. A property without a column is `undefined`. |
| `JsStrings.ReplacePrefix` | pages/api/uploadEtsyProduct.ts:9 | On a header that starts with `"Bearer "`, first-occurrence `replace` removes exactly that prefix. |
| `JsStrings.IndexOf` | pages/api/uploadEtsyProduct.ts:9 | The search `replace` performs finds the first position at or after `from` where the pattern occurs, or reports that it occurs nowhere from there. |
| `JsStrings.Trim` | pages/api/uploadEtsyProduct.ts:9 | The result starts and ends with a non-space. It is an infix of the input with only space characters around it. |
| `JsStrings.TrimIdempotent` | pages/api/uploadEtsyProduct.ts:9 | Trimming twice gives the same result as trimming once. |
| `EtsyUpload.ExtractToken` | pages/api/uploadEtsyProduct.ts:5-9 | A token exists exactly when the header is present and starts with `"Bearer "`. The token is the rest of the header, trimmed. |
| `EtsyUpload.Forwarded` | pages/api/uploadEtsyProduct.ts:18 | The forwarded header starts with `"Bearer "` and carries the token unchanged after it. |
| `EtsyUpload.ForwardedRoundTrip` | pages/api/uploadEtsyProduct.ts:9-18 | For every trimmed token, and every extracted token is trimmed, extracting the token from the forwarded header gives back that token. |
| `EtsyUpload.Handle` | pages/api/uploadEtsyProduct.ts:3-31 | A refused header gives 401 with the fixed message. Otherwise the response is the mapping of what the listing call does when sent `"Bearer " + token`. |
| `EtsyUpload.Respond` | pages/api/uploadEtsyProduct.ts:23-31 | A non-ok answer mirrors the upstream status with a body that is exactly `{ error }`, and that `error` is always truthy. It is the parsed upstream body when that body is truthy, `{}` when the body did not parse, and "Failed to upload product to Etsy." when the parsed body is falsy. An ok answer with a parsed body gives 200 with that body unchanged. An ok answer with an unreadable body gives 500 with the parse error's message. A thrown error gives 500 with exactly `{ error: message }`, which has no `error` at all when there is no message. |
| `EtsyUpload.ThrownBody` | pages/api/uploadEtsyProduct.ts:29-31 | `error` carries the thrown error's message. An undefined message leaves no `error` property once serialised. |
| `JsValues.ErrorOf` | app/page.tsx:160 | Reading `data.error` finds a value exactly when the body is an object with an `error` property, and the value is that property. |
| `EtsyUpload.RefusedHeaderSkipsUpstream` | pages/api/uploadEtsyProduct.ts:5-8 | With a refused header, the response is the same whatever the listing call would do. |
| `EtsyUpload.OnlyForwardedHeaderReachesUpstream` | pages/api/uploadEtsyProduct.ts:14-21 | Two listing calls that agree on `"Bearer " + token` give the same response. |
| `SessionWatch.Watch` | app/page.tsx:85-104 | The effect does nothing while loading, or without a truthy Google token or expiry. It clears now exactly when the expiry lies before `now`. With a token and an expiry at or after `now`, it schedules a clear after exactly `expiresAt - now` ms. The update is always the session without `google`. |
| `SessionWatch.WithoutGoogle` | app/page.tsx:90-95 | The update drops `google`. `etsy`, `user` and `expires` carry over. |
| `SessionWatch.ClearedExactlyFromExpiry` | app/page.tsx:96-101 | For a signed-in Google session with an expiry, the clear has happened at a given moment exactly when that moment is at or past the expiry. |
| `SessionWatch.ClearedSessionIsQuiet` | app/page.tsx:86-95 | After the update, the effect on the new session does nothing, at any time. |
| `SessionWatch.ExpiryExamples` | app/page.tsx:96-101 | An expiry one ms ago clears at once. An expiry 5000 ms ahead schedules 5000 ms. An expiry of exactly `now` schedules 0 ms rather than clearing. |
| `SessionWatch.EtsyToken` | app/page.tsx:72 | The publish token is the Etsy access token when truthy, otherwise `"etsyToken"`. It is never empty. |
| `Uploader.Load` | app/page.tsx:126-132 | An error answer keeps the rows and puts the message in the toast. A data answer replaces the collection with the products in order, each `not_listed`, and leaves the toast alone. |
| `Uploader.LoadDiscardsPrevious` | app/page.tsx:130-132 | The collection after a data load does not depend on the previous collection. |
| `Uploader.LoadedRowsAreAdmissible` | app/page.tsx:126-132 | Every error answer of the sheet handler is accepted by the load. After a successful answer, every row has a title and a price and is `not_listed`. |
| `Uploader.Unlisted` | app/page.tsx:290 | The filter is never longer than its input and holds no `listed` row. With no `listed` row it equals the input. |
| `Uploader.UnlistedMembers` | app/page.tsx:290 | A row is kept exactly when it is in the collection and not `listed`. |
| `Uploader.UnlistedAppend` | app/page.tsx:290 | The filter distributes over concatenation, so the remaining rows keep their relative order. |
| `Uploader.UnlistedDropsListed` | app/page.tsx:290 | The filter shortens the collection by exactly the number of `listed` rows. |
| `Uploader.ClearListed` | app/page.tsx:290 | The remaining rows are exactly the filter of non-`listed` rows, in order. A row remains exactly when it was present and not `listed`. The length drops by the number of `listed` rows. The toast is untouched. With no `listed` row, including the empty collection, the page is unchanged. |
| `Uploader.ClearListedKeepsOrder` | app/page.tsx:290 | Clearing a collection made of two parts equals clearing each part and joining them, so the kept rows keep their relative order. |
| `Uploader.NoListedMeansUnchanged` | app/page.tsx:290 | A collection without `listed` rows passes the filter unchanged. |
| `Uploader.Premark` | app/page.tsx:148-151 | Length, order and products are preserved. `listed` rows are untouched, and every other row shows `listing`. |
| `Uploader.PremarkCoversSubmitted` | app/page.tsx:148-153 | Every row a publish submits shows `listing` before any call is made. |
| `Uploader.Settle` | app/page.tsx:159-171 | A reply with a truthy `error` fails the row. Any other reply lists it. The product is kept. |
| `Uploader.Reconcile` | app/page.tsx:152-184 | Settling yields one row per row of the collection at call time. |
| `Uploader.ReconcileSettlesAll` | app/page.tsx:152-184 | Every product stays in its place. `listed` rows pass through unchanged. Every row ends `listed` or `listing_failed`. |
| `Uploader.SubmissionIndexLocates` | app/page.tsx:152-153 | A non-`listed` row's submission number points at that row in the sequence of submitted rows. |
| `Uploader.ReconcileAt` | app/page.tsx:152-184 | A submitted row is settled by the reply to its own submission. |
| `Uploader.LastFailure` | app/page.tsx:160-161 | Among the first `n` calls to settle, finds the last one whose reply fails, or reports that none fails. |
| `Uploader.SettleToast` | app/page.tsx:159-161 | Once the first `n` calls have settled: with no failing reply among them the toast is unchanged. Otherwise it shows the `error` of the last of them to fail. |
| `Uploader.FailureReachesToast` | app/page.tsx:159-161 | If any reply fails, the toast shows the `error` of some failing reply. |
| `Uploader.Publish` | app/page.tsx:140-186 | With an empty token or collection, nothing changes. Otherwise the collection is settled from the replies, and the toast ends as `SettleToast` leaves it after every call has settled: the `error` of the last failing reply in settle order overwrites earlier ones. With a failing reply the toast shows some failing reply's `error`. Without one the toast is unchanged. |
| `Uploader.PublishStages` | app/page.tsx:141-184 | Past the guard, a row shows `listing` in the pre-marked collection exactly when it is submitted. Its product stays in place through the publish. A `listed` row is the same before, during and after. A submitted row ends settled by the reply to its own submission. |
| `Uploader.PublishSettlesEveryRow` | app/page.tsx:140-186 | With the page's own token, publishing a non-empty collection keeps length and products, and leaves every row `listed` or `listing_failed`. |
| `Uploader.RepublishAllListed` | app/page.tsx:148-153 | An all-`listed` collection submits nothing, and publishing it returns the page unchanged. |
| `Uploader.AllListedSubmitsNothing` | app/page.tsx:152-153 | An all-`listed` collection has no row to submit. |
| `Uploader.OnlyFailedRowsAreResubmitted` | app/page.tsx:148-153 | After a publish, the rows a second publish would submit are exactly the failed ones. |
| `Uploader.UploadResponseDecidesStatus` | app/page.tsx:159-171 | A refused header or a non-ok upstream answer fails the row. A good upstream answer lists it exactly when its body has no truthy `error`. A good answer with an unreadable body fails the row exactly when the parse error has a non-empty message. A thrown error fails the row exactly when it carries a non-empty message: a thrown error without a message leaves the row `listed`. |
| `Uploader.PublishExample` | app/page.tsx:140-186 | Two rows, the second call failing with "boom", end `listed` then `listing_failed`, and the toast shows "boom". |
| `Uploader.StatusCell` | app/page.tsx:254-261 | Green exactly for `listed` and red exactly for `listing_failed`. The cell shows a spinner exactly for `listing`, "Listed" exactly for `listed`, "Listing failed" exactly for `listing_failed` and "Not listed" exactly for `not_listed`. |
| `Uploader.StatusCellInjective` | app/page.tsx:258-261 | The status cell tells every status apart. |

## Left out

- The Google Sheets read and the Etsy listing call are parameters. `SheetsResult` is what the read produced. `call` is the listing call as a function of the header it is sent.
- Request parsing in the sheet handler: a body that is not JSON, or is JSON `null`, throws in `JSON.parse` or in destructuring, and the catch block then crashes as for `Crash`. Any other non-object body reads the three properties as `undefined` and gets the 400 "Missing required fields.", which is `Params(None, None, None)`. The model starts from the three properties already read.
- The crash inside the sheet handler's catch block: an error without a `response` makes the catch itself throw. It is modelled only as the `Crash` outcome, with no response.
- Rejected upload calls in a publish. The fetch chain has no `.catch`. A transport failure, an unparseable reply, or a reply that is JSON `null` rejects the whole `Promise.all`. The final update then never runs and the rows stay `listing`. Replies are therefore parsed non-null bodies (`Body`), and no rejection is modelled as `listing_failed`.
- Uploader.SettleToast: which failure the toast shows depends on the settle order, which is a parameter. The toast's rendering is not modelled: a non-string `error`, such as the parsed upstream body a non-ok answer forwards, lands in the slot as is.
- Interleaving with the page while a publish is in flight. The final update replaces the collection with the one computed from the call-time rows. A "Clear listed" clicked meanwhile would be undone; the model runs operations one after another.
- Timers and clocks: `setTimeout`/`clearTimeout` and `Date.now()`. `now` is a parameter, and `ClearedBy` states when a scheduled clear has fired. A timer is taken to fire exactly after its delay. Real timers clamp a delay above 2147483647 ms (about 24.8 days) to about 1 ms, so an expiry further ahead than that would clear at once. Google access-token expiries are about an hour ahead. Cancelling the previous timer when the session changes is not modelled.
- Numbers are integers: fractional and NaN expiry timestamps are not modelled. An expiry of `0` is falsy and leaves the watcher idle, as in the code.
- The loading and in-progress flags (`sheetDataLoading`, `listingInProgress`, the sign-in flags) and the button enablement derived from them. They only drive spinners and disabled buttons.
- OAuth configuration, session typing, the legacy dashboard upload path, the Drive picker and all rendering. These are library wiring or presentation with no logic of their own.
