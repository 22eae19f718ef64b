/**
 * The CSV ingestion handler of src/ingestor/process_csv.py: it keeps the rows
 * that carry both a customer id and an email, counts them, and publishes one
 * "CustomerUpserted" event per kept row when an event bus is configured.
 */
module Ingestor {
  import opened Wrappers

  /** One row of `csv.DictReader`: column name to cell text. */
  type Row = map<string, string>

  const EventSource: string := "app.crm"
  const EventDetailType: string := "CustomerUpserted"
  const MissingRecord: string := "IndexError: list index out of range"

  /** The JSON detail of a "CustomerUpserted" event. */
  datatype Customer = Customer(customerId: string, email: string, segment: string)

  /** One entry passed to `events.put_events`. */
  datatype Entry = Entry(source: string, detailType: string, eventBusName: string, detail: Customer)

  /** The handler's return value `{"ok": True, "emitted": count}`. */
  datatype Summary = Summary(ok: bool, emitted: nat)

  /** `row.get(name)` is truthy: the column is present and its text non-empty. */
  predicate HasValue(row: Row, name: string)
  {
    name in row && row[name] != ""
  }

  /** A row the handler counts: it has both a customer id and an email. */
  predicate Kept(row: Row)
  {
    HasValue(row, "customer_id") && HasValue(row, "email")
  }

  /** `row.get("segment", "")` */
  function Segment(row: Row): string
  {
    if "segment" in row then row["segment"] else ""
  }

  /** The event published for a kept row. */
  function Upserted(busName: string, row: Row): Entry
    requires Kept(row)
  {
    Entry(EventSource, EventDetailType, busName,
          Customer(row["customer_id"], row["email"], Segment(row)))
  }

  /** The kept rows, in row order. */
  function KeptRows(rows: seq<Row>): (kept: seq<Row>)
    ensures |kept| <= |rows|
    ensures forall k :: 0 <= k < |kept| ==> Kept(kept[k]) && kept[k] in rows
  {
    if rows == [] then []
    else
      var last := rows[|rows| - 1];
      KeptRows(rows[..|rows| - 1]) + (if Kept(last) then [last] else [])
  }

  /** The events the handler publishes for `rows`: none without a bus, else one per kept row. */
  function Published(busName: string, rows: seq<Row>): (es: seq<Entry>)
    ensures busName == "" ==> es == []
    ensures busName != "" ==> |es| == |KeptRows(rows)|
    ensures busName != "" ==> forall k :: 0 <= k < |es| ==> es[k] == Upserted(busName, KeptRows(rows)[k])
  {
    if busName == "" || rows == [] then []
    else
      var last := rows[|rows| - 1];
      Published(busName, rows[..|rows| - 1]) + (if Kept(last) then [Upserted(busName, last)] else [])
  }

  /**
   * `handler(event, context)`, where `records` stands for the event's
   * "Records" list and each record for the rows of the CSV object it names.
   * Only the first record is read; with none, indexing fails.
   */
  method Handler(records: seq<seq<Row>>, busName: string)
    returns (result: Result<Summary, string>, published: seq<Entry>)
    ensures records == [] ==> result == Failure(MissingRecord) && published == []
    ensures records != [] ==> result == Success(Summary(true, |KeptRows(records[0])|))
    ensures records != [] ==> published == Published(busName, records[0])
  {
    if records == [] {
      return Failure(MissingRecord), [];
    }
    var rows := records[0];
    var count := 0;
    published := [];
    for i := 0 to |rows|
      invariant count == |KeptRows(rows[..i])|
      invariant published == Published(busName, rows[..i])
    {
      assert rows[..i + 1][..i] == rows[..i];
      var row := rows[i];
      if !("customer_id" in row && row["customer_id"] != "") || !("email" in row && row["email"] != "") {
        continue;
      }
      count := count + 1;
      if busName != "" {
        published := published + [Upserted(busName, row)];
      }
    }
    assert rows[..|rows|] == rows;
    result := Success(Summary(true, count));
  }

  /** The indices of the rows the handler counts. */
  function KeptIndices(rows: seq<Row>): set<nat>
  {
    set i: nat | i < |rows| && Kept(rows[i])
  }

  /** The count is the number of rows with both fields present and non-empty. */
  lemma {:induction false} CountIsNumberOfKeptRows(rows: seq<Row>)
    ensures |KeptRows(rows)| == |KeptIndices(rows)|
  {
    if rows != [] {
      var n := |rows| - 1;
      var init := rows[..n];
      CountIsNumberOfKeptRows(init);
      var before := KeptIndices(init);
      assert n !in before;
      if Kept(rows[n]) {
        assert KeptIndices(rows) == before + {n};
      } else {
        assert KeptIndices(rows) == before;
      }
    }
  }

  /** The kept rows of a concatenation are the kept rows of each part. */
  lemma {:induction false} KeptRowsAppend(a: seq<Row>, b: seq<Row>)
    ensures KeptRows(a + b) == KeptRows(a) + KeptRows(b)
  {
    if b == [] {
      assert a + b == a;
    } else {
      var n := |b| - 1;
      assert (a + b)[..|a + b| - 1] == a + b[..n];
      KeptRowsAppend(a, b[..n]);
    }
  }

  /** The events depend on the rows only through the kept rows. */
  lemma PublishedFollowsKeptRows(busName: string, x: seq<Row>, y: seq<Row>)
    requires KeptRows(x) == KeptRows(y)
    ensures Published(busName, x) == Published(busName, y)
  {
    var l, r := Published(busName, x), Published(busName, y);
    assert |l| == |r|;
    assert forall k :: 0 <= k < |l| ==> l[k] == r[k];
  }

  /** A row lacking either field adds neither to the count nor to the events. */
  lemma SkippedRowChangesNothing(before: seq<Row>, row: Row, after: seq<Row>, busName: string)
    requires !Kept(row)
    ensures KeptRows(before + [row] + after) == KeptRows(before + after)
    ensures Published(busName, before + [row] + after) == Published(busName, before + after)
  {
    KeptRowsAppend(before, [row]);
    KeptRowsAppend(before + [row], after);
    KeptRowsAppend(before, after);
    assert KeptRows([row]) == [] by {
      assert [row][..0] == [];
    }
    PublishedFollowsKeptRows(busName, before + [row] + after, before + after);
  }
}
