/**
 * The deal conversion of app/Services/DealCurrencyService.php as transitions
 * on an abstract `public.deals` table: an upsert that resets the deal to
 * `received`, then either `converted` with the amount in dollars and the
 * rate, or `failed` with the original error passed on.
 *
 * Every database statement is an oracle outcome (it runs, or PDO raises),
 * the rate is the outcome of the rate lookup, and the float computation
 * `round((float) $amountRub * $rate, 2)` is the parameter `usd`.
 */
module DealCurrency {
  import opened Wrappers

  datatype Status = Received | Converted | Failed

  /** A row of `public.deals`: its serial id, `amount_rub`, `status`, `amount_usd` and `exchange_rate` (`NULL` as `None`). */
  datatype Row = Row(id: nat, amountRub: string, status: Status, amountUsd: Option<string>, exchangeRate: Option<string>)

  /** The rows keyed by `bitrix_deal_id` (the table's unique key), and the next value of the id sequence. */
  datatype Table = Table(rows: map<int, Row>, nextId: nat)

  /** Ids are unique and were all drawn from the sequence. */
  predicate WellFormed(t: Table) {
    (forall k :: k in t.rows ==> t.rows[k].id < t.nextId) &&
    (forall k1, k2 :: k1 in t.rows && k2 in t.rows && t.rows[k1].id == t.rows[k2].id ==> k1 == k2)
  }

  /** The validated webhook payload: `deal_id` and `amount`. */
  datatype Payload = Payload(dealId: int, amount: string)

  /** How one statement goes: it runs, or PDO raises with a message. */
  datatype Statement = Runs | Raises(message: string)

  /** How the upsert transaction goes; `NoRowReturned` is `fetch` finding no `RETURNING` row. */
  datatype UpsertOutcome = UpsertRuns | UpsertRaises(message: string) | NoRowReturned

  const UpsertFailed := "Upsert failed."

  /** The row `RETURNING id, bitrix_deal_id, amount_rub, status` gives. */
  datatype Deal = Deal(id: nat, dealId: int, amountRub: string, status: Status)

  /** The table after the upsert and the returned row or the exception message. */
  datatype Upserted = Upserted(table: Table, deal: Result<Deal, string>)

  /** Everything in `rows` but the entry at `key` is as in `before`. */
  predicate OthersUnchanged(before: map<int, Row>, after: map<int, Row>, key: int) {
    after.Keys - {key} == before.Keys - {key} &&
    (forall k :: k != key && k in after && k in before ==> after[k] == before[k])
  }

  /**
   * `upsertReceived`: one transaction inserting the deal, or on a conflict
   * on `bitrix_deal_id` resetting it to `received` with the new amount and
   * no dollar amount or rate. The id of an existing row is kept; the
   * sequence advances either way (PostgreSQL draws the default before it
   * detects the conflict). On any failure the transaction is rolled back.
   */
  function Upsert(t: Table, p: Payload, outcome: UpsertOutcome): (r: Upserted)
    ensures r.deal.Err? ==> r.table == t
    ensures outcome.UpsertRaises? ==> r.deal == Err(outcome.message)
    ensures outcome.NoRowReturned? ==> r.deal == Err(UpsertFailed)
    ensures r.deal.Ok? <==> outcome.UpsertRuns?
    ensures r.deal.Ok? ==>
      r.deal.value == Deal(r.deal.value.id, p.dealId, p.amount, Received) &&
      p.dealId in r.table.rows && r.table.rows[p.dealId] == Row(r.deal.value.id, p.amount, Received, None, None) &&
      OthersUnchanged(t.rows, r.table.rows, p.dealId)
    ensures r.deal.Ok? && p.dealId in t.rows ==> r.deal.value.id == t.rows[p.dealId].id
    ensures WellFormed(t) && r.deal.Ok? && p.dealId !in t.rows ==> forall k :: k in t.rows ==> t.rows[k].id != r.deal.value.id
    ensures WellFormed(t) ==> WellFormed(r.table)
  {
    match outcome
    case UpsertRaises(message) => Upserted(t, Err(message))
    case NoRowReturned => Upserted(t, Err(UpsertFailed))
    case UpsertRuns =>
      var id := if p.dealId in t.rows then t.rows[p.dealId].id else t.nextId;
      var row := Row(id, p.amount, Received, None, None);
      Upserted(Table(t.rows[p.dealId := row], t.nextId + 1), Ok(Deal(id, p.dealId, p.amount, Received)))
  }

  /** `UPDATE public.deals SET amount_usd, exchange_rate, status = 'converted' WHERE id = :id`. */
  function SetConverted(rows: map<int, Row>, id: nat, amountUsd: string, rate: string): (r: map<int, Row>)
    ensures r.Keys == rows.Keys
    ensures forall k :: k in rows && rows[k].id != id ==> r[k] == rows[k]
    ensures forall k :: k in rows && rows[k].id == id ==>
      r[k] == Row(id, rows[k].amountRub, Converted, Some(amountUsd), Some(rate))
  {
    map k | k in rows :: if rows[k].id == id then rows[k].(status := Converted, amountUsd := Some(amountUsd), exchangeRate := Some(rate)) else rows[k]
  }

  /** `UPDATE public.deals SET status = 'failed' WHERE id = :id`. */
  function SetFailed(rows: map<int, Row>, id: nat): (r: map<int, Row>)
    ensures r.Keys == rows.Keys
    ensures forall k :: k in rows && rows[k].id != id ==> r[k] == rows[k]
    ensures forall k :: k in rows && rows[k].id == id ==> r[k] == rows[k].(status := Failed)
  {
    map k | k in rows :: if rows[k].id == id then rows[k].(status := Failed) else rows[k]
  }

  /** The table after a statement and the message it raised, if any. */
  datatype Written = Written(table: Table, raised: Option<string>)

  /** `markConverted`: a single statement; when it raises, nothing is written. */
  function MarkConverted(t: Table, id: nat, amountUsd: string, rate: string, stmt: Statement): (r: Written)
    ensures stmt.Raises? ==> r == Written(t, Some(stmt.message))
    ensures stmt.Runs? ==> r.raised.None? && r.table.nextId == t.nextId && r.table.rows == SetConverted(t.rows, id, amountUsd, rate)
  {
    match stmt
    case Raises(message) => Written(t, Some(message))
    case Runs => Written(t.(rows := SetConverted(t.rows, id, amountUsd, rate)), None)
  }

  /** `markFailed`: the failure of its own statement is swallowed, so it never raises; it then changes nothing. */
  function MarkFailed(t: Table, id: nat, stmt: Statement): (r: Table)
    ensures stmt.Raises? ==> r == t
    ensures stmt.Runs? ==> r.nextId == t.nextId && r.rows == SetFailed(t.rows, id)
  {
    match stmt
    case Raises(_) => t
    case Runs => t.(rows := SetFailed(t.rows, id))
  }

  /** The array `handle` returns, its `status` being `converted`. */
  datatype Conversion = Conversion(dealId: int, amountRub: string, amountUsd: string, rate: string)

  /** The table after `handle` and its return value or the message of the exception it lets out. */
  datatype Handled = Handled(table: Table, response: Result<Conversion, string>)

  /**
   * `handle`: the upsert (whose failure propagates before anything else
   * happens), then the rate and `markConverted`; if either raises, the deal
   * is marked failed and that same exception is re-raised.
   */
  function Handle(t: Table, p: Payload, upsert: UpsertOutcome, rate: Result<string, string>,
                  usd: (string, string) -> string, convertStmt: Statement, failStmt: Statement): (r: Handled)
    ensures !upsert.UpsertRuns? ==> r == Handled(t, Err(Upsert(t, p, upsert).deal.error))
    ensures r.response.Ok? <==> upsert.UpsertRuns? && rate.Ok? && convertStmt.Runs?
    ensures r.response.Ok? ==> r.response.value == Conversion(p.dealId, p.amount, usd(p.amount, rate.value), rate.value)
    ensures upsert.UpsertRuns? && rate.Err? ==> r.response == Err(rate.error)
    ensures upsert.UpsertRuns? && rate.Ok? && convertStmt.Raises? ==> r.response == Err(convertStmt.message)
  {
    var up := Upsert(t, p, upsert);
    match up.deal
    case Err(message) => Handled(up.table, Err(message))
    case Ok(deal) =>
      match rate
      case Err(message) => Handled(MarkFailed(up.table, deal.id, failStmt), Err(message))
      case Ok(value) =>
        var amountUsd := usd(deal.amountRub, value);
        var written := MarkConverted(up.table, deal.id, amountUsd, value, convertStmt);
        match written.raised
        case Some(message) => Handled(MarkFailed(written.table, deal.id, failStmt), Err(message))
        case None => Handled(written.table, Ok(Conversion(deal.dealId, deal.amountRub, amountUsd, value)))
  }

  /** In a well-formed table the row holding an id is the only one an update `WHERE id = :id` touches. */
  lemma IdSelectsOneRow(t: Table, key: int)
    requires WellFormed(t) && key in t.rows
    ensures forall k :: k in t.rows && t.rows[k].id == t.rows[key].id ==> k == key
  {
  }

  /**
   * A successful `handle` leaves exactly one row changed: the deal's, now
   * `converted` with the submitted amount, the dollar amount and the rate,
   * whether or not the deal existed before.
   */
  lemma HandleConverts(t: Table, p: Payload, rate: string, usd: (string, string) -> string, failStmt: Statement)
    requires WellFormed(t)
    ensures var r := Handle(t, p, UpsertRuns, Ok(rate), usd, Runs, failStmt);
      r.response.Ok? && WellFormed(r.table) &&
      p.dealId in r.table.rows &&
      r.table.rows[p.dealId].status == Converted &&
      r.table.rows[p.dealId].amountRub == p.amount &&
      r.table.rows[p.dealId].amountUsd == Some(usd(p.amount, rate)) &&
      r.table.rows[p.dealId].exchangeRate == Some(rate) &&
      OthersUnchanged(t.rows, r.table.rows, p.dealId)
  {
    var up := Upsert(t, p, UpsertRuns);
    IdSelectsOneRow(up.table, p.dealId);
  }

  /**
   * When the rate lookup or `markConverted` raises after the upsert, the
   * original message comes out, and the deal's row is `failed` with no
   * dollar amount or rate (or, if marking it failed raised as well, still
   * `received`); no other row changes.
   */
  lemma HandleFails(t: Table, p: Payload, rate: Result<string, string>, usd: (string, string) -> string,
                    convertStmt: Statement, failStmt: Statement)
    requires WellFormed(t)
    requires rate.Err? || convertStmt.Raises?
    ensures var r := Handle(t, p, UpsertRuns, rate, usd, convertStmt, failStmt);
      r.response == Err(if rate.Err? then rate.error else convertStmt.message) &&
      WellFormed(r.table) && p.dealId in r.table.rows &&
      r.table.rows[p.dealId].status == (if failStmt.Runs? then Failed else Received) &&
      r.table.rows[p.dealId].amountRub == p.amount &&
      r.table.rows[p.dealId].amountUsd == None && r.table.rows[p.dealId].exchangeRate == None &&
      OthersUnchanged(t.rows, r.table.rows, p.dealId)
  {
    var up := Upsert(t, p, UpsertRuns);
    IdSelectsOneRow(up.table, p.dealId);
  }

  /** A failed upsert leaves the table as it was and passes its error on. */
  lemma UpsertAllOrNothing(t: Table, p: Payload, upsert: UpsertOutcome, rate: Result<string, string>,
                           usd: (string, string) -> string, convertStmt: Statement, failStmt: Statement)
    requires !upsert.UpsertRuns?
    ensures var r := Handle(t, p, upsert, rate, usd, convertStmt, failStmt);
      r.table == t && r.response == Err(if upsert.UpsertRaises? then upsert.message else UpsertFailed)
  {
  }

  /** A redelivered deal starts over: whatever state it was in, the upsert makes it `received` again under the same id. */
  lemma RedeliveryResets(t: Table, p: Payload)
    requires p.dealId in t.rows
    ensures var r := Upsert(t, p, UpsertRuns);
      r.table.rows[p.dealId] == t.rows[p.dealId].(amountRub := p.amount, status := Received, amountUsd := None, exchangeRate := None)
  {
  }
}
