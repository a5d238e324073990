/** The row collection of the uploader page (app/page.tsx): loading a sheet,
    publishing the rows, clearing the listed ones, and the status column.
    The concurrent upload calls are an order-preserving map driven by an
    oracle: `replies[j]` is the parsed body the j-th submitted row gets back,
    and `order` is the order in which those calls settle. */
module Uploader {
  import opened JsValues
  import opened Products
  import SheetImport
  import EtsyUpload
  import SessionWatch

  datatype Status = NotListed | Listing | Listed | ListingFailed

  /** A product as shown in the table, with its upload status. */
  datatype Row = Row(product: Product, status: Status)

  /** The page state this model follows: the collection and the single toast
      slot (an empty string shows no toast). */
  datatype Page = Page(rows: seq<Row>, toast: Json)

  // ---------------------------------------------------------------------
  // Load
  // ---------------------------------------------------------------------

  /** The sheet handler's body arriving at the page. An error replaces the
      toast and keeps the rows; data replaces the whole collection, every
      row starting as not listed. */
  function Load(page: Page, body: SheetImport.SheetBody): (r: Page)
    requires body.SheetFailure? ==> body.error != ""
    ensures body.SheetFailure? ==> r.rows == page.rows && r.toast == JStr(body.error)
    ensures body.SheetData? ==> r.toast == page.toast && |r.rows| == |body.products|
    ensures body.SheetData? ==> forall i :: 0 <= i < |r.rows| ==>
      r.rows[i].product == body.products[i] && r.rows[i].status == NotListed
  {
    match body
    case SheetFailure(error) => page.(toast := JStr(error))
    case SheetData(products) =>
      page.(rows := seq(|products|, i requires 0 <= i < |products| => Row(products[i], NotListed)))
  }

  /** A load of sheet data is a replacement, not a merge: the previous
      collection has no influence on the new one. */
  lemma LoadDiscardsPrevious(p1: Page, p2: Page, products: seq<Product>)
    ensures Load(p1, SheetImport.SheetData(products)).rows == Load(p2, SheetImport.SheetData(products)).rows
  {
  }

  /** Loading what the sheet handler answers: its error bodies are always
      accepted by `Load`, and after a successful answer every row has a title
      and a price and is not listed. */
  lemma LoadedRowsAreAdmissible(page: Page, p: SheetImport.Params, fetched: SheetImport.SheetsResult)
    requires SheetImport.Handle(p, fetched).Reply?
    ensures var body := SheetImport.Handle(p, fetched).body;
      && (body.SheetFailure? ==> body.error != "")
      && (body.SheetData? ==> forall i :: 0 <= i < |Load(page, body).rows| ==>
            var row := Load(page, body).rows[i];
            PresentText(row.product.title) && PresentText(row.product.price) && row.status == NotListed)
  {
  }

  // ---------------------------------------------------------------------
  // Clear listed, and the rows a publish submits
  // ---------------------------------------------------------------------

  /** The rows whose status is not `listed`, in order: what "Clear listed"
      keeps, and what a publish submits. */
  function Unlisted(rows: seq<Row>): (r: seq<Row>)
    ensures |r| <= |rows|
    ensures forall k :: 0 <= k < |r| ==> r[k].status != Listed
    ensures (forall i :: 0 <= i < |rows| ==> rows[i].status != Listed) ==> r == rows
  {
    if |rows| == 0 then []
    else if rows[0].status == Listed then Unlisted(rows[1..])
    else [rows[0]] + Unlisted(rows[1..])
  }

  /** A row is kept exactly when it is in the collection and not listed. */
  lemma {:induction false} UnlistedMembers(rows: seq<Row>)
    ensures forall x :: x in Unlisted(rows) <==> x in rows && x.status != Listed
  {
    if |rows| > 0 {
      UnlistedMembers(rows[1..]);
      assert rows == [rows[0]] + rows[1..];
    }
  }

  /** The filter distributes over concatenation, so the kept rows stay in
      their relative order. */
  lemma {:induction false} UnlistedAppend(a: seq<Row>, b: seq<Row>)
    ensures Unlisted(a + b) == Unlisted(a) + Unlisted(b)
  {
    if |a| == 0 {
      assert a + b == b;
    } else {
      assert (a + b)[0] == a[0];
      assert (a + b)[1..] == a[1..] + b;
      UnlistedAppend(a[1..], b);
      if a[0].status != Listed {
        assert Unlisted(a + b) == [a[0]] + (Unlisted(a[1..]) + Unlisted(b));
      }
    }
  }

  /** The number of rows with status `listed`. */
  function CountListed(rows: seq<Row>): nat {
    if |rows| == 0 then 0
    else (if rows[0].status == Listed then 1 else 0) + CountListed(rows[1..])
  }

  /** The filter drops exactly the listed rows. */
  lemma {:induction false} UnlistedDropsListed(rows: seq<Row>)
    ensures |Unlisted(rows)| == |rows| - CountListed(rows)
  {
    if |rows| > 0 {
      UnlistedDropsListed(rows[1..]);
    }
  }

  /** The "Clear listed" button: removes exactly the listed rows, keeps the
      others in order, leaves the toast alone. */
  function ClearListed(page: Page): (r: Page)
    ensures r.toast == page.toast
    ensures r.rows == Unlisted(page.rows)
    ensures |r.rows| == |page.rows| - CountListed(page.rows)
    ensures forall x :: x in r.rows <==> x in page.rows && x.status != Listed
    ensures CountListed(page.rows) == 0 ==> r == page
  {
    UnlistedDropsListed(page.rows);
    UnlistedMembers(page.rows);
    NoListedMeansUnchanged(page.rows);
    page.(rows := Unlisted(page.rows))
  }

  /** Clearing keeps the remaining rows in their relative order: clearing a
      collection made of two parts clears each part and joins them. */
  lemma ClearListedKeepsOrder(a: seq<Row>, b: seq<Row>, toast: Json)
    ensures ClearListed(Page(a + b, toast)).rows ==
      ClearListed(Page(a, toast)).rows + ClearListed(Page(b, toast)).rows
  {
    UnlistedAppend(a, b);
  }

  /** With no listed row the filter keeps everything. */
  lemma NoListedMeansUnchanged(rows: seq<Row>)
    ensures CountListed(rows) == 0 ==> Unlisted(rows) == rows
  {
    UnlistedDropsListed(rows);
  }

  // ---------------------------------------------------------------------
  // Publish
  // ---------------------------------------------------------------------

  /** The collection shown before any upload call is made. */
  function Premark(rows: seq<Row>): (r: seq<Row>)
    ensures |r| == |rows|
    ensures forall i :: 0 <= i < |rows| ==> r[i].product == rows[i].product
    ensures forall i :: 0 <= i < |rows| ==> rows[i].status == Listed ==> r[i] == rows[i]
    ensures forall i :: 0 <= i < |rows| ==> rows[i].status != Listed ==> r[i].status == Listing
  {
    seq(|rows|, i requires 0 <= i < |rows| => if rows[i].status == Listed then rows[i] else rows[i].(status := Listing))
  }

  /** Every row about to be submitted shows the spinner before any call is
      made, and the pre-marked collection submits the same number of rows. */
  lemma {:induction false} PremarkCoversSubmitted(rows: seq<Row>)
    ensures |Unlisted(Premark(rows))| == |Unlisted(rows)|
    ensures forall k :: 0 <= k < |Unlisted(Premark(rows))| ==> Unlisted(Premark(rows))[k].status == Listing
  {
    if |rows| > 0 {
      assert Premark(rows)[1..] == Premark(rows[1..]);
      PremarkCoversSubmitted(rows[1..]);
    }
  }

  /** A submitted row once its reply is in: an `error` in the body fails it. */
  function Settle(row: Row, reply: Body): (r: Row)
    ensures r.product == row.product
    ensures r.status == ListingFailed <==> Present(ErrorOf(reply))
    ensures r.status != ListingFailed ==> r.status == Listed
  {
    Row(row.product, if Fails(reply) then ListingFailed else Listed)
  }

  /** The collection as it was when publish was called, listed
      rows passed through, every other row settled by its own reply. */
  function Reconcile(rows: seq<Row>, replies: seq<Body>): (r: seq<Row>)
    requires |replies| == |Unlisted(rows)|
    ensures |r| == |rows|
  {
    if |rows| == 0 then []
    else if rows[0].status == Listed then [rows[0]] + Reconcile(rows[1..], replies)
    else [Settle(rows[0], replies[0])] + Reconcile(rows[1..], replies[1..])
  }

  /** Reconciling keeps every product in place, passes listed rows through
      and leaves no row listing or not listed. */
  lemma {:induction false} ReconcileSettlesAll(rows: seq<Row>, replies: seq<Body>)
    requires |replies| == |Unlisted(rows)|
    ensures forall i :: 0 <= i < |rows| ==>
      && Reconcile(rows, replies)[i].product == rows[i].product
      && (rows[i].status == Listed ==> Reconcile(rows, replies)[i] == rows[i])
      && (Reconcile(rows, replies)[i].status == Listed || Reconcile(rows, replies)[i].status == ListingFailed)
  {
    if |rows| > 0 {
      var tail := rows[1..];
      var rest := if rows[0].status == Listed then replies else replies[1..];
      var head := if rows[0].status == Listed then rows[0] else Settle(rows[0], replies[0]);
      ReconcileSettlesAll(tail, rest);
      var r, r' := Reconcile(rows, replies), Reconcile(tail, rest);
      assert r == [head] + r';
      forall i | 0 <= i < |rows|
        ensures r[i].product == rows[i].product
        ensures rows[i].status == Listed ==> r[i] == rows[i]
        ensures r[i].status == Listed || r[i].status == ListingFailed
      {
        if i > 0 {
          assert r[i] == r'[i - 1] && rows[i] == tail[i - 1];
        }
      }
    }
  }

  /** How many rows before position `i` are submitted: the position of
      row `i` among the submissions. */
  function SubmissionIndex(rows: seq<Row>, i: nat): nat
    requires i <= |rows|
  {
    if i == 0 then 0
    else (if rows[0].status == Listed then 0 else 1) + SubmissionIndex(rows[1..], i - 1)
  }

  /** Row `i`, when it is submitted, is submission number
      `SubmissionIndex(rows, i)`. */
  lemma {:induction false} SubmissionIndexLocates(rows: seq<Row>, i: nat)
    requires i < |rows| && rows[i].status != Listed
    ensures SubmissionIndex(rows, i) < |Unlisted(rows)|
    ensures Unlisted(rows)[SubmissionIndex(rows, i)] == rows[i]
  {
    if i > 0 {
      var tail := rows[1..];
      assert tail[i - 1] == rows[i];
      SubmissionIndexLocates(tail, i - 1);
      if rows[0].status != Listed {
        assert Unlisted(rows) == [rows[0]] + Unlisted(tail);
      }
    }
  }

  /** A submitted row `i` is settled by the reply to its own submission. */
  lemma {:induction false} ReconcileAt(rows: seq<Row>, replies: seq<Body>, i: nat)
    requires |replies| == |Unlisted(rows)|
    requires i < |rows| && rows[i].status != Listed
    ensures SubmissionIndex(rows, i) < |replies|
    ensures Reconcile(rows, replies)[i] == Settle(rows[i], replies[SubmissionIndex(rows, i)])
  {
    SubmissionIndexLocates(rows, i);
    if i > 0 {
      var tail := rows[1..];
      assert tail[i - 1] == rows[i];
      if rows[0].status == Listed {
        ReconcileAt(tail, replies, i - 1);
        assert Reconcile(rows, replies) == [rows[0]] + Reconcile(tail, replies);
        assert SubmissionIndex(rows, i) == SubmissionIndex(tail, i - 1);
      } else {
        var rest := replies[1..];
        ReconcileAt(tail, rest, i - 1);
        assert Reconcile(rows, replies) == [Settle(rows[0], replies[0])] + Reconcile(tail, rest);
        assert SubmissionIndex(rows, i) == 1 + SubmissionIndex(tail, i - 1);
        assert rest[SubmissionIndex(tail, i - 1)] == replies[SubmissionIndex(rows, i)];
      }
    }
  }

  /** `order` lists every submission exactly once: the order in which the
      `n` concurrent calls settle. */
  predicate IsSettleOrder(order: seq<nat>, n: nat) {
    && |order| == n
    && (forall m :: 0 <= m < |order| ==> order[m] < n)
    && (forall k :: 0 <= k < n ==> k in order)
  }

  /** Among the first `n` calls to settle, the position in `order` of the
      last one whose reply fails. */
  function LastFailure(replies: seq<Body>, order: seq<nat>, n: nat): (l: Option<nat>)
    requires n <= |order|
    requires forall m :: 0 <= m < |order| ==> order[m] < |replies|
    ensures l.Some? ==> l.value < n && Fails(replies[order[l.value]])
    ensures l.Some? ==> forall m :: l.value < m < n ==> !Fails(replies[order[m]])
    ensures l.None? ==> forall m :: 0 <= m < n ==> !Fails(replies[order[m]])
  {
    if n == 0 then None
    else if Fails(replies[order[n - 1]]) then Some(n - 1)
    else LastFailure(replies, order, n - 1)
  }

  /** The toast once the first `n` calls in `order` have settled: each
      failing reply overwrites the single slot with its `error`, so the last
      failure to settle is the one shown, and with no failure the toast is
      untouched. */
  function SettleToast(toast: Json, replies: seq<Body>, order: seq<nat>, n: nat): (t: Json)
    requires n <= |order|
    requires forall m :: 0 <= m < |order| ==> order[m] < |replies|
    ensures LastFailure(replies, order, n).None? ==> t == toast
    ensures LastFailure(replies, order, n).Some? ==>
      t == ErrorOf(replies[order[LastFailure(replies, order, n).value]]).value
  {
    if n == 0 then toast
    else if Fails(replies[order[n - 1]]) then ErrorOf(replies[order[n - 1]]).value
    else SettleToast(toast, replies, order, n - 1)
  }

  /** The publish button with the bearer token `token`. Guarded by a truthy
      token and a non-empty collection; otherwise the rows submitted are the
      unlisted ones, and the collection ends up reconciled. */
  function Publish(page: Page, token: string, replies: seq<Body>, order: seq<nat>): (r: Page)
    requires |replies| == |Unlisted(page.rows)|
    requires IsSettleOrder(order, |replies|)
    ensures token == "" || |page.rows| == 0 ==> r == page
    ensures token != "" && |page.rows| > 0 ==> r.rows == Reconcile(page.rows, replies)
    ensures token != "" && |page.rows| > 0 ==> r.toast == SettleToast(page.toast, replies, order, |order|)
    ensures (forall j :: 0 <= j < |replies| ==> !Fails(replies[j])) ==> r.toast == page.toast
    ensures token != "" && |page.rows| > 0 && (exists j :: 0 <= j < |replies| && Fails(replies[j])) ==>
      exists j :: 0 <= j < |replies| && Fails(replies[j]) && r.toast == ErrorOf(replies[j]).value
  {
    if token == "" || |page.rows| == 0 then page
    else
      FailureReachesToast(page.toast, replies, order);
      Page(Reconcile(page.rows, replies), SettleToast(page.toast, replies, order, |order|))
  }

  /** The three stages of a publish line up. Past the guard, the collection
      shown while the calls are in flight is the pre-marked one. Its
      `listing` rows are exactly the rows that are submitted. Each of them is
      then settled by its own reply, and every other row shows the same row
      before, during and after the publish. */
  lemma PublishStages(page: Page, token: string, replies: seq<Body>, order: seq<nat>, i: nat)
    requires |replies| == |Unlisted(page.rows)|
    requires IsSettleOrder(order, |replies|)
    requires token != "" && i < |page.rows|
    ensures Premark(page.rows)[i].status == Listing <==> page.rows[i].status != Listed
    ensures Premark(page.rows)[i].product == Publish(page, token, replies, order).rows[i].product
    ensures page.rows[i].status == Listed ==>
      Premark(page.rows)[i] == page.rows[i] && Publish(page, token, replies, order).rows[i] == page.rows[i]
    ensures page.rows[i].status != Listed ==> SubmissionIndex(page.rows, i) < |replies|
    ensures page.rows[i].status != Listed ==>
      Publish(page, token, replies, order).rows[i] == Settle(page.rows[i], replies[SubmissionIndex(page.rows, i)])
  {
    ReconcileSettlesAll(page.rows, replies);
    if page.rows[i].status != Listed {
      ReconcileAt(page.rows, replies, i);
    }
  }

  /** When the calls settle in an order covering every submission, some
      failure is shown if any reply failed. */
  lemma FailureReachesToast(toast: Json, replies: seq<Body>, order: seq<nat>)
    requires IsSettleOrder(order, |replies|)
    ensures (exists j :: 0 <= j < |replies| && Fails(replies[j])) ==>
      exists j :: 0 <= j < |replies| && Fails(replies[j]) && SettleToast(toast, replies, order, |order|) == ErrorOf(replies[j]).value
  {
    if j :| 0 <= j < |replies| && Fails(replies[j]) {
      assert j in order;
      var m :| 0 <= m < |order| && order[m] == j;
      var l := LastFailure(replies, order, |order|).value;
      assert 0 <= order[l] < |replies| && Fails(replies[order[l]]);
    }
  }

  /** With the page's own token (which defaults to "etsyToken") only the
      empty-collection guard can fire: publishing a non-empty collection
      always leaves every row listed or failed, none listing or not listed. */
  lemma PublishSettlesEveryRow(session: Option<SessionWatch.Session>, page: Page, replies: seq<Body>, order: seq<nat>)
    requires |page.rows| > 0
    requires |replies| == |Unlisted(page.rows)|
    requires IsSettleOrder(order, |replies|)
    ensures var r := Publish(page, SessionWatch.EtsyToken(session), replies, order);
      && |r.rows| == |page.rows|
      && forall i :: 0 <= i < |r.rows| ==>
           r.rows[i].product == page.rows[i].product &&
           (r.rows[i].status == Listed || r.rows[i].status == ListingFailed)
  {
    ReconcileSettlesAll(page.rows, replies);
  }

  /** Publishing a collection whose rows are all listed submits nothing and
      changes nothing. */
  lemma RepublishAllListed(page: Page, token: string, replies: seq<Body>, order: seq<nat>)
    requires forall i :: 0 <= i < |page.rows| ==> page.rows[i].status == Listed
    requires |replies| == |Unlisted(page.rows)|
    requires IsSettleOrder(order, |replies|)
    ensures replies == []
    ensures Publish(page, token, replies, order) == page
  {
    AllListedSubmitsNothing(page.rows);
    if token != "" && |page.rows| > 0 {
      var r := Reconcile(page.rows, replies);
      ReconcileSettlesAll(page.rows, replies);
      assert forall i :: 0 <= i < |r| ==> r[i] == page.rows[i];
      assert r == page.rows;
    }
  }

  /** A collection whose rows are all listed submits nothing. */
  lemma {:induction false} AllListedSubmitsNothing(rows: seq<Row>)
    requires forall i :: 0 <= i < |rows| ==> rows[i].status == Listed
    ensures Unlisted(rows) == []
  {
    if |rows| > 0 {
      AllListedSubmitsNothing(rows[1..]);
    }
  }

  /** After a publish, a second one submits exactly the rows that failed:
      failed rows are eligible again, listed ones never are. */
  lemma OnlyFailedRowsAreResubmitted(rows: seq<Row>, replies: seq<Body>)
    requires |replies| == |Unlisted(rows)|
    ensures forall x :: x in Unlisted(Reconcile(rows, replies)) ==> x.status == ListingFailed
    ensures forall i :: 0 <= i < |rows| && Reconcile(rows, replies)[i].status == ListingFailed ==>
      Reconcile(rows, replies)[i] in Unlisted(Reconcile(rows, replies))
  {
    UnlistedMembers(Reconcile(rows, replies));
  }

  /** The upload handler's answer decides the row's fate: a refused header
      or a failed upstream answer fails the row; a good upstream answer
      lists it unless its own body carries a truthy `error`. */
  lemma UploadResponseDecidesStatus(row: Row, header: Option<string>, call: string -> EtsyUpload.Upstream)
    ensures var resp := EtsyUpload.Handle(header, call);
      && (EtsyUpload.ExtractToken(header).None? ==> !resp.body.JNull? && Settle(row, resp.body).status == ListingFailed)
      && (EtsyUpload.ExtractToken(header).Some? ==>
            var u := call(EtsyUpload.Forwarded(EtsyUpload.ExtractToken(header).value));
            && (u.Answered? && !EtsyUpload.IsOk(u.status) ==>
                  !resp.body.JNull? && Settle(row, resp.body).status == ListingFailed)
            && (u.Answered? && EtsyUpload.IsOk(u.status) && u.body.Parsed? && !u.body.json.JNull? ==>
                  resp.body == u.body.json &&
                  (Settle(row, resp.body).status == Listed <==> !Fails(u.body.json)))
            && (u.Answered? && EtsyUpload.IsOk(u.status) && u.body.Unparseable? ==>
                  (Settle(row, resp.body).status == ListingFailed <==> u.body.syntaxError != ""))
            && (u.Threw? ==>
                  (Settle(row, resp.body).status == ListingFailed <==>
                   u.message.Some? && u.message.value != "")))
  {
  }

  /** Two rows, the first upload succeeding and the second failing with
      "boom": the statuses end listed then failed and the toast shows
      "boom". */
  lemma PublishExample(a: Product, b: Product)
    ensures var page := Page([Row(a, NotListed), Row(b, NotListed)], JStr(""));
      var replies: seq<Body> := [JObj(map[]), ErrorBody(JStr("boom"))];
      var r := Publish(page, "etsyToken", replies, [0, 1]);
      r.rows == [Row(a, Listed), Row(b, ListingFailed)] && r.toast == JStr("boom")
  {
    var rows := [Row(a, NotListed), Row(b, NotListed)];
    var replies: seq<Body> := [JObj(map[]), ErrorBody(JStr("boom"))];
    assert Unlisted(rows) == rows;
    assert rows[1..] == [Row(b, NotListed)] && rows[1..][1..] == [];
    assert replies[1..] == [ErrorBody(JStr("boom"))] && replies[1..][1..] == [];
    assert !Fails(replies[0]) && Fails(replies[1]);
    assert Reconcile(rows[1..], replies[1..]) == [Row(b, ListingFailed)];
    assert Reconcile(rows, replies) == [Row(a, Listed), Row(b, ListingFailed)];
    assert SettleToast(JStr(""), replies, [0, 1], 2) == JStr("boom");
  }

  // ---------------------------------------------------------------------
  // Status column
  // ---------------------------------------------------------------------

  datatype Tone = Green | Red | Gray
  datatype Label = Text(text: string) | Spinner

  /** The status cell: its colour and what it shows. */
  function StatusCell(s: Status): (c: (Tone, Label))
    ensures c.0 == Green <==> s == Listed
    ensures c.0 == Red <==> s == ListingFailed
    ensures c.1 == Spinner <==> s == Listing
    ensures c.1 == Text("Listed") <==> s == Listed
    ensures c.1 == Text("Listing failed") <==> s == ListingFailed
    ensures c.1 == Text("Not listed") <==> s == NotListed
  {
    match s
    case Listed => (Green, Text("Listed"))
    case ListingFailed => (Red, Text("Listing failed"))
    case Listing => (Gray, Spinner)
    case NotListed => (Gray, Text("Not listed"))
  }

  /** The cell tells every status apart. */
  lemma StatusCellInjective(s: Status, t: Status)
    requires StatusCell(s) == StatusCell(t)
    ensures s == t
  {
  }
}
