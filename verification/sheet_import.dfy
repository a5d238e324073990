/** The spreadsheet import handler (pages/api/fetchSheetData.ts): parameter
    guard, the remote read as an abstract result, the row-count guard, and
    decoding of the data rows into products through the header row. */
module SheetImport {
  import opened JsValues
  import opened Products

  const MissingFields := "Missing required fields."
  const NoProductData := "No product data found in sheet."

  /** The three properties read from the parsed request body. */
  datatype Params = Params(sheetId: Option<Json>, range: Option<Json>, accessToken: Option<Json>)

  /** What the Sheets `values.get` call produced: the `values` property of
      its data (absent for an empty range), or a thrown error, with the
      `statusText` of its `response` when it has one. */
  datatype SheetsResult =
    | Values(values: Option<seq<seq<string>>>)
    | SheetsError(statusText: Option<string>, message: string)

  datatype SheetBody = SheetData(products: seq<Product>) | SheetFailure(error: string)

  /** The handler's answer; `Crash` is the catch block throwing in turn
      because the error has no `response`. */
  datatype SheetReply = Reply(status: int, body: SheetBody) | Crash

  /** The cell at column `idx`, `undefined` past the row's end. */
  function Cell(row: seq<string>, idx: nat): Option<string> {
    if idx < |row| then Some(row[idx]) else None
  }

  /** The object the `forEach` over the first `n` header names builds: each
      name in turn is assigned its column's cell, a later column overwriting
      an earlier one of the same name. */
  function Record(header: seq<string>, row: seq<string>, n: nat): map<string, Option<string>>
    requires n <= |header|
  {
    if n == 0 then map[]
    else Record(header, row, n - 1)[header[n - 1] := Cell(row, n - 1)]
  }

  /** `obj[key]` after the whole header has been walked. */
  function FieldValue(header: seq<string>, row: seq<string>, key: string): Option<string> {
    var obj := Record(header, row, |header|);
    if key in obj then obj[key] else None
  }

  /** The last column whose header is `key`. */
  function LastIndex(header: seq<string>, key: string): (r: Option<nat>)
    ensures r.Some? ==> r.value < |header| && header[r.value] == key
    ensures r.Some? ==> forall j :: r.value < j < |header| ==> header[j] != key
    ensures r.None? ==> forall j :: 0 <= j < |header| ==> header[j] != key
  {
    if |header| == 0 then None
    else if header[|header| - 1] == key then Some(|header| - 1)
    else LastIndex(header[..|header| - 1], key)
  }

  /** The header walk gives a name the cell of the last column carrying it,
      `undefined` when that column is past the row's end or no column does. */
  lemma {:induction false} RecordLastWins(header: seq<string>, row: seq<string>, n: nat, key: string)
    requires n <= |header|
    ensures key in Record(header, row, n) <==> LastIndex(header[..n], key).Some?
    ensures key in Record(header, row, n) ==>
      Record(header, row, n)[key] == Cell(row, LastIndex(header[..n], key).value)
  {
    if n > 0 {
      RecordLastWins(header, row, n - 1, key);
      assert header[..n][..n - 1] == header[..n - 1];
    }
  }

  /** `obj[key]` is the cell under the last column named `key`. */
  lemma FieldValueIsLastColumn(header: seq<string>, row: seq<string>, key: string)
    ensures FieldValue(header, row, key) ==
      match LastIndex(header, key)
      case None => None
      case Some(i) => Cell(row, i)
  {
    RecordLastWins(header, row, |header|, key);
    assert header[..|header|] == header;
  }

  /** The product literal built from `obj`: only the eight product keys. */
  function Project(header: seq<string>, row: seq<string>): Product {
    Product(
      FieldValue(header, row, "title"),
      FieldValue(header, row, "description"),
      FieldValue(header, row, "price"),
      FieldValue(header, row, "quantity"),
      FieldValue(header, row, "who_made"),
      FieldValue(header, row, "when_made"),
      FieldValue(header, row, "taxonomy_id"),
      FieldValue(header, row, "is_digital"))
  }

  /** A row survives when `obj.title && obj.price` holds. */
  predicate Keep(header: seq<string>, row: seq<string>) {
    PresentText(FieldValue(header, row, "title")) && PresentText(FieldValue(header, row, "price"))
  }

  /** One data row mapped to its product, or to null when it lacks a title
      or a price. */
  function Candidate(header: seq<string>, row: seq<string>): (c: Option<Product>)
    ensures c.Some? ==> PresentText(c.value.title) && PresentText(c.value.price)
  {
    if Keep(header, row) then Some(Project(header, row)) else None
  }

  /** `.filter(product => product !== null)`: the non-null entries in order. */
  function DropNulls<T>(cs: seq<Option<T>>): (r: seq<T>)
    ensures |r| <= |cs|
  {
    if |cs| == 0 then []
    else if cs[0].Some? then [cs[0].value] + DropNulls(cs[1..])
    else DropNulls(cs[1..])
  }

  /** The positions at or after `from` of the non-null entries, in order. */
  function SomeIndices<T>(cs: seq<Option<T>>, from: nat): (r: seq<nat>)
    requires from <= |cs|
    ensures forall k :: 0 <= k < |r| ==> from <= r[k] < |cs| && cs[r[k]].Some?
    ensures forall k, l :: 0 <= k < l < |r| ==> r[k] < r[l]
    ensures forall j :: from <= j < |cs| && cs[j].Some? ==> j in r
    decreases |cs| - from
  {
    if from == |cs| then []
    else if cs[from].Some? then [from] + SomeIndices(cs, from + 1)
    else SomeIndices(cs, from + 1)
  }

  /** The filter keeps the k-th non-null entry as its k-th element. */
  lemma {:induction false} DropNullsByIndex<T>(cs: seq<Option<T>>, from: nat)
    requires from <= |cs|
    ensures |DropNulls(cs[from..])| == |SomeIndices(cs, from)|
    ensures forall k :: 0 <= k < |DropNulls(cs[from..])| ==>
      Some(DropNulls(cs[from..])[k]) == cs[SomeIndices(cs, from)[k]]
    decreases |cs| - from
  {
    if from < |cs| {
      var here := cs[from..];
      assert here[1..] == cs[from + 1..] && here[0] == cs[from];
      DropNullsByIndex(cs, from + 1);
      var d, s := DropNulls(here), SomeIndices(cs, from);
      var d', s' := DropNulls(cs[from + 1..]), SomeIndices(cs, from + 1);
      if cs[from].Some? {
        assert d == [cs[from].value] + d' && s == [from] + s';
        forall k | 0 <= k < |d|
          ensures Some(d[k]) == cs[s[k]]
        {
          if k > 0 {
            assert d[k] == d'[k - 1] && s[k] == s'[k - 1];
          }
        }
      } else {
        assert d == d' && s == s';
      }
    }
  }

  /** The rows below the header, each mapped to its candidate. */
  function Candidates(header: seq<string>, rows: seq<seq<string>>): (cs: seq<Option<Product>>)
    ensures |cs| == |rows|
    ensures forall j :: 0 <= j < |rows| ==> cs[j] == Candidate(header, rows[j])
  {
    seq(|rows|, j requires 0 <= j < |rows| => Candidate(header, rows[j]))
  }

  /** The data rows mapped to products or null, then the nulls filtered out. */
  function Decode(header: seq<string>, rows: seq<seq<string>>): (r: seq<Product>)
    ensures |r| <= |rows|
    ensures forall k :: 0 <= k < |r| ==> PresentText(r[k].title) && PresentText(r[k].price)
  {
    var cs := Candidates(header, rows);
    DropNullsByIndex(cs, 0);
    assert cs[0..] == cs;
    DropNulls(cs)
  }

  /** A cell under a column whose name is not one of the eight product keys
      (or past the header's end) has no effect on the product. */
  lemma OtherColumnsIgnored(header: seq<string>, row: seq<string>, i: nat, v: string)
    requires i < |row|
    requires i < |header| ==> header[i] !in FieldKeys
    ensures Project(header, row[i := v]) == Project(header, row)
  {
    forall key | key in FieldKeys
      ensures FieldValue(header, row[i := v], key) == FieldValue(header, row, key)
    {
      FieldValueIsLastColumn(header, row, key);
      FieldValueIsLastColumn(header, row[i := v], key);
    }
  }

  /** The POST handler. `fetched` is what the remote read would produce; it
      is consulted only once the parameters pass. */
  function Handle(p: Params, fetched: SheetsResult): (r: SheetReply)
    ensures !(Present(p.sheetId) && Present(p.range) && Present(p.accessToken)) ==>
      r == Reply(400, SheetFailure(MissingFields))
    ensures r.Reply? && r.body.SheetFailure? ==> r.body.error != "" && r.status != 200
    ensures r.Reply? && r.body.SheetData? ==>
      r.status == 200 && fetched.Values? && fetched.values.Some? && |fetched.values.value| >= 2
    ensures fetched.Values? && (fetched.values.None? || |fetched.values.value| < 2) ==>
      r.Reply? && r.body.SheetFailure? && r.status == 400
    ensures (Present(p.sheetId) && Present(p.range) && Present(p.accessToken) &&
             fetched.Values? && (fetched.values.None? || |fetched.values.value| < 2)) ==>
      r == Reply(400, SheetFailure(NoProductData))
    ensures (Present(p.sheetId) && Present(p.range) && Present(p.accessToken) &&
             fetched.SheetsError? && fetched.statusText.Some?) ==>
      r == Reply(500, SheetFailure(fetched.statusText.value + ": " + fetched.message))
    ensures r.Crash? <==>
      (Present(p.sheetId) && Present(p.range) && Present(p.accessToken) &&
       fetched.SheetsError? && fetched.statusText.None?)
  {
    if !(Present(p.sheetId) && Present(p.range) && Present(p.accessToken)) then
      Reply(400, SheetFailure(MissingFields))
    else
      match fetched
      case SheetsError(None, _) => Crash
      case SheetsError(Some(statusText), message) => Reply(500, SheetFailure(statusText + ": " + message))
      case Values(None) => Reply(400, SheetFailure(NoProductData))
      case Values(Some(rows)) =>
        if |rows| < 2 then Reply(400, SheetFailure(NoProductData))
        else Reply(200, SheetData(Decode(rows[0], rows[1..])))
  }

  /** With a parameter missing the remote read is never made: the reply is
      the same whatever it would have produced. */
  lemma MissingParamsSkipFetch(p: Params, f1: SheetsResult, f2: SheetsResult)
    requires !(Present(p.sheetId) && Present(p.range) && Present(p.accessToken))
    ensures Handle(p, f1) == Handle(p, f2)
  {
  }

  /** A successful reply lists the products of the data rows below the
      header, in sheet order, each built from a row that has a title and a
      price; row 0 is only ever the header. */
  lemma SuccessIsDataRowsBelowHeader(p: Params, rows: seq<seq<string>>)
    requires Present(p.sheetId) && Present(p.range) && Present(p.accessToken)
    requires |rows| >= 2
    ensures Handle(p, Values(Some(rows))).Reply?
    ensures var products := Handle(p, Values(Some(rows))).body.products;
      var kept := SomeIndices(Candidates(rows[0], rows[1..]), 0);
      && |products| == |kept| <= |rows| - 1
      && (forall k, l :: 0 <= k < l < |kept| ==> kept[k] < kept[l])
      && (forall k :: 0 <= k < |products| ==>
            kept[k] + 1 < |rows| && products[k] == Project(rows[0], rows[kept[k] + 1]))
      && (forall j :: 1 <= j < |rows| ==> (Keep(rows[0], rows[j]) <==> j - 1 in kept))
  {
    var cs := Candidates(rows[0], rows[1..]);
    var kept := SomeIndices(cs, 0);
    DropNullsByIndex(cs, 0);
    assert cs[0..] == cs;
    forall k | 0 <= k < |kept|
      ensures kept[k] + 1 < |rows| && DropNulls(cs)[k] == Project(rows[0], rows[kept[k] + 1])
    {
      assert rows[1..][kept[k]] == rows[kept[k] + 1];
    }
    forall j | 1 <= j < |rows|
      ensures Keep(rows[0], rows[j]) <==> j - 1 in kept
    {
      assert rows[1..][j - 1] == rows[j];
      assert cs[j - 1] == Candidate(rows[0], rows[j]);
    }
  }

  /** The example sheet: the row with an empty title is dropped, the other
      two come through in order. */
  lemma ExampleSheet()
    ensures var rows := [["title", "price"], ["Mug", "10"], ["", "5"], ["Shirt", "20"]];
      var r := Handle(Params(Some(JStr("id")), Some(JStr("Sheet1")), Some(JStr("tok"))), Values(Some(rows)));
      && r.Reply? && r.status == 200
      && |r.body.products| == 2
      && r.body.products[0].title == Some("Mug") && r.body.products[0].price == Some("10")
      && r.body.products[1].title == Some("Shirt") && r.body.products[1].price == Some("20")
      && r.body.products[1].description == None
  {
    var header := ["title", "price"];
    var rows := [["Mug", "10"], ["", "5"], ["Shirt", "20"]];
    FieldValueIsLastColumn(header, rows[0], "title");
    FieldValueIsLastColumn(header, rows[0], "price");
    FieldValueIsLastColumn(header, rows[1], "title");
    FieldValueIsLastColumn(header, rows[2], "title");
    FieldValueIsLastColumn(header, rows[2], "price");
    FieldValueIsLastColumn(header, rows[2], "description");
    assert rows[1..][1..] == [rows[2]];
  }
}
