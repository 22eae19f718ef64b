/**
 * The stock-reservation handler `reserve` of src/inventory/handlers.py.
 *
 * One DynamoDB table, keyed by its `sku` attribute, holds both stock records
 * (keyed by the SKU, with a `qty`) and idempotency markers (keyed by
 * "idem#<request_id>", with a `ttl`). A reservation first inserts the marker
 * if its key is absent (first writer wins), then decrements `qty` only if it
 * covers the requested quantity, and on success publishes an event when an
 * event bus is configured. Each store call is one atomic step.
 */
module Inventory {
  import opened Wrappers

  /** An item of the table. */
  datatype Item =
    | Stock(qty: int)    // a stock record
    | Marker(ttl: int)   // an idempotency marker: it has no `qty` attribute

  type Table = map<string, Item>

  const MarkerPrefix: string := "idem#"
  /** Seconds a marker is kept before the store may expire it (24 hours). */
  const MarkerLifetime: int := 86400
  const InvalidMessage: string := "sku, qty>0, request_id required"
  const InsufficientMessage: string := "insufficient"
  const EventSource: string := "app.inventory"
  const EventDetailType: string := "InventoryReserved"

  /** The key of the idempotency marker of a request id. */
  function MarkerKey(requestId: string): string
  {
    MarkerPrefix + requestId
  }

  /** Distinct request ids have distinct marker keys. */
  lemma MarkerKeyInjective(a: string, b: string)
    ensures MarkerKey(a) == MarkerKey(b) ==> a == b
  {
    assert MarkerKey(a)[|MarkerPrefix|..] == a && MarkerKey(b)[|MarkerPrefix|..] == b;
  }

  /** The already-decoded JSON body; a missing `sku` or `request_id` is None, a missing `qty` is 0. */
  datatype Request = Request(sku: Option<string>, qty: int, requestId: Option<string>)

  /** The JSON body of the HTTP response. */
  datatype Body =
    | ErrorBody(error: string)
    | DuplicateBody(requestId: string)
    | RemainingBody(remaining: int)

  datatype Response = Response(statusCode: int, body: Body)

  /** The JSON detail of an "InventoryReserved" event. */
  datatype Reservation = Reservation(sku: string, qty: int, remaining: int, requestId: string)

  /** One entry passed to `events.put_events`. */
  datatype Entry = Entry(source: string, detailType: string, eventBusName: string, detail: Reservation)

  /** The table together with the events published so far. */
  datatype Store = Store(table: Table, log: seq<Entry>)

  datatype Outcome = Outcome(store: Store, response: Response)

  /** The input passes the handler's validation: `sku`, `qty > 0` and `request_id`. */
  predicate WellFormed(req: Request)
  {
    req.sku.Some? && req.sku.value != "" && req.qty > 0
    && req.requestId.Some? && req.requestId.value != ""
  }

  /** The store condition `qty >= :q` on the item at `key`; false when there is no `qty`. */
  predicate Covers(table: Table, key: string, qty: int)
  {
    key in table && table[key].Stock? && table[key].qty >= qty
  }

  /** No stock record holds a negative quantity. */
  predicate StockNonNegative(table: Table)
  {
    forall k :: k in table && table[k].Stock? ==> table[k].qty >= 0
  }

  /** `after` differs from `before` at most on the keys in `touched`. */
  predicate UnchangedOutside(before: Table, after: Table, touched: set<string>)
  {
    && (forall k :: k in before && k !in touched ==> k in after && after[k] == before[k])
    && (forall k :: k in after && k !in touched ==> k in before)
  }

  /** The keys a well-formed request may write: its marker and its SKU. */
  function Touched(req: Request): set<string>
    requires WellFormed(req)
  {
    {MarkerKey(req.requestId.value), req.sku.value}
  }

  /**
   * What `reserve` does to the store and answers, for a request handled at
   * `now` (seconds) with event bus `busName` ("" when none is configured).
   */
  function ReserveOutcome(st: Store, busName: string, req: Request, now: int): (o: Outcome)
    ensures o.response.statusCode == 400 <==> !WellFormed(req)
    ensures !WellFormed(req) ==> o.store == st
    ensures o.response.statusCode in {200, 400, 409}
    ensures WellFormed(req) ==> UnchangedOutside(st.table, o.store.table, Touched(req))
    ensures st.table.Keys <= o.store.table.Keys
    ensures StockNonNegative(st.table) ==> StockNonNegative(o.store.table)
    ensures o.store.log == st.log
            || (busName != "" && o.response.body.RemainingBody?
                && |o.store.log| == |st.log| + 1 && o.store.log[..|st.log|] == st.log)
  {
    if !WellFormed(req) then
      Outcome(st, Response(400, ErrorBody(InvalidMessage)))
    else
      var sku, qty, id := req.sku.value, req.qty, req.requestId.value;
      var key := MarkerKey(id);
      if key in st.table then
        Outcome(st, Response(200, DuplicateBody(id)))
      else
        var marked := st.table[key := Marker(now + MarkerLifetime)];
        if !Covers(marked, sku, qty) then
          Outcome(Store(marked, st.log), Response(409, ErrorBody(InsufficientMessage)))
        else
          var remaining := marked[sku].qty - qty;
          var log := if busName != "" then
                       st.log + [Entry(EventSource, EventDetailType, busName, Reservation(sku, qty, remaining, id))]
                     else st.log;
          Outcome(Store(marked[sku := Stock(remaining)], log), Response(200, RemainingBody(remaining)))
  }

  /** A request id already marked answers duplicate and changes nothing, whatever quantity is asked. */
  lemma DuplicateChangesNothing(st: Store, busName: string, req: Request, now: int)
    requires WellFormed(req) && MarkerKey(req.requestId.value) in st.table
    ensures ReserveOutcome(st, busName, req, now) == Outcome(st, Response(200, DuplicateBody(req.requestId.value)))
  {
  }

  /** A first-seen request id leaves exactly one new key, its marker, expiring a day after `now`. */
  lemma FirstSeenInsertsMarker(st: Store, busName: string, req: Request, now: int)
    requires WellFormed(req) && MarkerKey(req.requestId.value) !in st.table
    ensures var o := ReserveOutcome(st, busName, req, now);
      && o.store.table.Keys == st.table.Keys + {MarkerKey(req.requestId.value)}
      && o.store.table[MarkerKey(req.requestId.value)] == Marker(now + MarkerLifetime)
      && !o.response.body.DuplicateBody?
  {
  }

  /**
   * A reservation succeeds exactly when the request is valid, its id is new
   * and the stock covers the quantity; it then answers 200 with the new
   * quantity, `old - requested`, which is what the stock record now holds.
   */
  lemma ReservesOnlyWhenCovered(st: Store, busName: string, req: Request, now: int)
    ensures var o := ReserveOutcome(st, busName, req, now);
      o.response.body.RemainingBody? <==>
        WellFormed(req) && MarkerKey(req.requestId.value) !in st.table && Covers(st.table, req.sku.value, req.qty)
    ensures var o := ReserveOutcome(st, busName, req, now);
      o.response.body.RemainingBody? ==>
        var remaining := st.table[req.sku.value].qty - req.qty;
        && o.response == Response(200, RemainingBody(remaining))
        && o.store.table[req.sku.value] == Stock(remaining)
  {
  }

  /**
   * Insufficient stock answers 409 and leaves the stock as it was, but the
   * marker stays: any later request with the same id is a duplicate, not a
   * fresh stock check, whatever quantity it asks.
   */
  lemma InsufficientPinsRequestId(st: Store, busName: string, req: Request, now: int, retry: Request, later: int)
    requires ReserveOutcome(st, busName, req, now).response.statusCode == 409
    requires WellFormed(retry) && retry.requestId == req.requestId
    ensures var o := ReserveOutcome(st, busName, req, now);
      && o.response == Response(409, ErrorBody(InsufficientMessage))
      && o.store == Store(st.table[MarkerKey(req.requestId.value) := Marker(now + MarkerLifetime)], st.log)
      && ReserveOutcome(o.store, busName, retry, later)
         == Outcome(o.store, Response(200, DuplicateBody(req.requestId.value)))
  {
  }

  /** An event is published only on success and only with a bus; it carries sku, qty, remaining and request id. */
  lemma EventOnlyOnSuccess(st: Store, busName: string, req: Request, now: int)
    ensures var o := ReserveOutcome(st, busName, req, now);
      o.store.log != st.log <==> o.response.body.RemainingBody? && busName != ""
    ensures var o := ReserveOutcome(st, busName, req, now);
      o.store.log != st.log ==>
        o.store.log == st.log + [Entry(EventSource, EventDetailType, busName,
          Reservation(req.sku.value, req.qty, o.response.body.remaining, req.requestId.value))]
  {
  }

  /** One call of the handler: the decoded body and the time it runs. */
  datatype Call = Call(req: Request, now: int)

  /** The store after handling `calls` one after another, and the responses. */
  function Run(st: Store, busName: string, calls: seq<Call>): (r: (Store, seq<Response>))
    ensures |r.1| == |calls|
    decreases |calls|
  {
    if calls == [] then (st, [])
    else
      var o := ReserveOutcome(st, busName, calls[0].req, calls[0].now);
      var rest := Run(o.store, busName, calls[1..]);
      (rest.0, [o.response] + rest.1)
  }

  /** Stock never goes negative, however many reservations run. */
  lemma {:induction false} RunKeepsStockNonNegative(st: Store, busName: string, calls: seq<Call>)
    requires StockNonNegative(st.table)
    ensures StockNonNegative(Run(st, busName, calls).0.table)
    decreases |calls|
  {
    if calls != [] {
      var o := ReserveOutcome(st, busName, calls[0].req, calls[0].now);
      RunKeepsStockNonNegative(o.store, busName, calls[1..]);
    }
  }

  /** Once a marker exists, every later valid request with its id answers duplicate. */
  lemma {:induction false} MarkerPinsLaterCalls(st: Store, busName: string, calls: seq<Call>, id: string, j: nat)
    requires MarkerKey(id) in st.table
    requires j < |calls| && WellFormed(calls[j].req) && calls[j].req.requestId.value == id
    ensures Run(st, busName, calls).1[j] == Response(200, DuplicateBody(id))
    decreases |calls|
  {
    var o := ReserveOutcome(st, busName, calls[0].req, calls[0].now);
    if j > 0 {
      MarkerPinsLaterCalls(o.store, busName, calls[1..], id, j - 1);
    }
  }

  /**
   * A request id is admitted at most once: of two valid calls with the same
   * id, the later one answers duplicate, whatever the first one answered.
   */
  lemma {:induction false} AdmittedAtMostOnce(st: Store, busName: string, calls: seq<Call>, i: nat, j: nat)
    requires i < j < |calls|
    requires WellFormed(calls[i].req) && WellFormed(calls[j].req)
    requires calls[i].req.requestId == calls[j].req.requestId
    ensures Run(st, busName, calls).1[j] == Response(200, DuplicateBody(calls[j].req.requestId.value))
    decreases |calls|
  {
    var o := ReserveOutcome(st, busName, calls[0].req, calls[0].now);
    if i == 0 {
      MarkerPinsLaterCalls(o.store, busName, calls[1..], calls[j].req.requestId.value, j - 1);
    } else {
      AdmittedAtMostOnce(o.store, busName, calls[1..], i - 1, j - 1);
    }
  }

  /** The units reserved for `sku`: the quantities of the calls on it that answered with a remaining count. */
  function ReservedUnits(sku: string, calls: seq<Call>, responses: seq<Response>): int
    requires |responses| == |calls|
  {
    if calls == [] then 0
    else
      (if calls[0].req.sku == Some(sku) && responses[0].body.RemainingBody? then calls[0].req.qty else 0)
      + ReservedUnits(sku, calls[1..], responses[1..])
  }

  /** A stock record changes only by the quantity of a successful reservation on it. */
  lemma StockStep(st: Store, busName: string, req: Request, now: int, sku: string)
    requires sku in st.table && st.table[sku].Stock?
    ensures var o := ReserveOutcome(st, busName, req, now);
      && sku in o.store.table
      && o.store.table[sku]
         == Stock(st.table[sku].qty
                  - (if req.sku == Some(sku) && o.response.body.RemainingBody? then req.qty else 0))
  {
  }

  /**
   * Conservation: the stock of a SKU after any sequence of reservations is
   * its initial stock minus the units successfully reserved on it.
   */
  lemma {:induction false} StockConservation(st: Store, busName: string, calls: seq<Call>, sku: string)
    requires sku in st.table && st.table[sku].Stock?
    ensures var r := Run(st, busName, calls);
      sku in r.0.table && r.0.table[sku] == Stock(st.table[sku].qty - ReservedUnits(sku, calls, r.1))
    decreases |calls|
  {
    if calls != [] {
      var o := ReserveOutcome(st, busName, calls[0].req, calls[0].now);
      StockStep(st, busName, calls[0].req, calls[0].now, sku);
      StockConservation(o.store, busName, calls[1..], sku);
      var r := Run(st, busName, calls);
      assert r.1[1..] == Run(o.store, busName, calls[1..]).1;
    }
  }

  /** Never oversold: the units reserved on a SKU never exceed its initial stock. */
  lemma NeverOversold(st: Store, busName: string, calls: seq<Call>, sku: string)
    requires StockNonNegative(st.table)
    requires sku in st.table && st.table[sku].Stock?
    ensures ReservedUnits(sku, calls, Run(st, busName, calls).1) <= st.table[sku].qty
  {
    StockConservation(st, busName, calls, sku);
    RunKeepsStockNonNegative(st, busName, calls);
  }

  /**
   * Ten units of A1: r1 for 7 leaves 3, its replay is a duplicate, and r2
   * for 5 is insufficient; the stock stays at 3.
   */
  lemma ReplayAndShortageScenario()
    ensures var r := Run(Store(map["A1" := Stock(10)], []), "",
                         [Call(Request(Some("A1"), 7, Some("r1")), 0),
                          Call(Request(Some("A1"), 7, Some("r1")), 1),
                          Call(Request(Some("A1"), 5, Some("r2")), 2)]);
      && r.1 == [Response(200, RemainingBody(3)), Response(200, DuplicateBody("r1")),
                 Response(409, ErrorBody(InsufficientMessage))]
      && r.0.table["A1"] == Stock(3)
  {
    var c1 := Call(Request(Some("A1"), 7, Some("r1")), 0);
    var c2 := Call(Request(Some("A1"), 7, Some("r1")), 1);
    var c3 := Call(Request(Some("A1"), 5, Some("r2")), 2);
    var calls := [c1, c2, c3];
    var s0 := Store(map["A1" := Stock(10)], []);
    assert MarkerKey("r1") != "A1" && MarkerKey("r2") != "A1";
    assert MarkerKey("r1")[6] != MarkerKey("r2")[6];
    var o1 := ReserveOutcome(s0, "", c1.req, c1.now);
    assert o1.response == Response(200, RemainingBody(3));
    var o2 := ReserveOutcome(o1.store, "", c2.req, c2.now);
    assert o2 == Outcome(o1.store, Response(200, DuplicateBody("r1")));
    var o3 := ReserveOutcome(o2.store, "", c3.req, c3.now);
    assert o3.response == Response(409, ErrorBody(InsufficientMessage));
    assert calls[1..][1..] == [c3] && calls[1..] == [c2, c3] && [c3][1..] == [];
    var last := Run(o2.store, "", [c3]);
    assert [c3][0] == c3 && [c3][1..] == [];
    assert last == (Run(o3.store, "", []).0, [o3.response] + Run(o3.store, "", []).1);
    assert Run(o3.store, "", []) == (o3.store, []);
    assert [o3.response] + [] == [o3.response];
    assert last == (o3.store, [o3.response]);
  }

  /**
   * Two reservations on one SKU whose quantities each fit the stock but not
   * together: whichever runs first gets `stock - first`, the other 409.
   */
  lemma {:induction false} ContendedReservation(st: Store, busName: string, first: Call, second: Call)
    requires WellFormed(first.req) && WellFormed(second.req)
    requires first.req.sku == second.req.sku && first.req.requestId != second.req.requestId
    requires MarkerKey(first.req.requestId.value) !in st.table && MarkerKey(second.req.requestId.value) !in st.table
    requires Covers(st.table, first.req.sku.value, first.req.qty)
    requires Covers(st.table, second.req.sku.value, second.req.qty)
    requires first.req.qty + second.req.qty > st.table[first.req.sku.value].qty
    ensures Run(st, busName, [first, second]).1
            == [Response(200, RemainingBody(st.table[first.req.sku.value].qty - first.req.qty)),
                Response(409, ErrorBody(InsufficientMessage))]
  {
    var o1 := ReserveOutcome(st, busName, first.req, first.now);
    var o2 := ReserveOutcome(o1.store, busName, second.req, second.now);
    assert o1.response == Response(200, RemainingBody(st.table[first.req.sku.value].qty - first.req.qty));
    var id1, id2 := first.req.requestId.value, second.req.requestId.value;
    MarkerKeyInjective(id1, id2);
    assert o2.response == Response(409, ErrorBody(InsufficientMessage));
    assert [first, second][0] == first && [first, second][1..] == [second];
    assert [second][0] == second && [second][1..] == [];
    assert Run(o1.store, busName, [second]).1 == [o2.response] + Run(o2.store, busName, []).1;
    assert [o2.response] + [] == [o2.response];
    assert Run(st, busName, [first, second]).1 == [o1.response] + Run(o1.store, busName, [second]).1;
  }

  /** The service: the table and the event log as the handler's clients see them. */
  class Service {
    var table: Table
    var log: seq<Entry>
    const busName: string

    constructor (initial: Table, busName: string)
      ensures table == initial && log == [] && this.busName == busName
    {
      table := initial;
      log := [];
      this.busName := busName;
    }

    ghost function State(): Store
      reads this
    {
      Store(table, log)
    }

    /** `ddb.put_item` with ConditionExpression "attribute_not_exists(sku)". */
    method PutIfAbsent(key: string, item: Item) returns (written: bool)
      modifies this
      ensures written <==> key !in old(table)
      ensures table == if written then old(table)[key := item] else old(table)
      ensures log == old(log)
    {
      written := key !in table;
      if written {
        table := table[key := item];
      }
    }

    /**
     * `ddb.update_item` with "SET qty = qty - :q", ConditionExpression
     * "qty >= :q" and ReturnValues "ALL_NEW": the new `qty`, or None when the
     * condition failed.
     */
    method DecrementIfCovered(key: string, qty: int) returns (newQty: Option<int>)
      modifies this
      ensures newQty.Some? <==> Covers(old(table), key, qty)
      ensures newQty.Some? ==> newQty.value == old(table)[key].qty - qty
                               && table == old(table)[key := Stock(newQty.value)]
      ensures newQty.None? ==> table == old(table)
      ensures log == old(log)
    {
      if Covers(table, key, qty) {
        newQty := Some(table[key].qty - qty);
        table := table[key := Stock(newQty.value)];
      } else {
        newQty := None;
      }
    }

    /** `events.put_events` with one entry. */
    method PutEvent(e: Entry)
      modifies this
      ensures log == old(log) + [e] && table == old(table)
    {
      log := log + [e];
    }

    /** `reserve(event, context)` with the body already decoded into `req` and `now` the time. */
    method Reserve(req: Request, now: int) returns (resp: Response)
      modifies this
      ensures Outcome(State(), resp) == ReserveOutcome(old(State()), busName, req, now)
    {
      if req.sku.None? || req.sku.value == "" || req.qty <= 0 || req.requestId.None? || req.requestId.value == "" {
        return Response(400, ErrorBody(InvalidMessage));
      }
      var sku, qty, id := req.sku.value, req.qty, req.requestId.value;

      var admitted := PutIfAbsent(MarkerKey(id), Marker(now + MarkerLifetime));
      if !admitted {
        return Response(200, DuplicateBody(id));
      }

      var updated := DecrementIfCovered(sku, qty);
      if updated.None? {
        return Response(409, ErrorBody(InsufficientMessage));
      }

      var remaining := updated.value;
      if busName != "" {
        PutEvent(Entry(EventSource, EventDetailType, busName, Reservation(sku, qty, remaining, id)));
      }
      resp := Response(200, RemainingBody(remaining));
    }
  }
}
