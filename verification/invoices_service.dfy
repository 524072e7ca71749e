/** The invoice store: an in-memory, insertion-ordered list of invoices with
    creation, lookup by id and status overwrite. The clock is passed in as
    milliseconds since the epoch; ISO-8601 formatting of the two timestamps
    is not modelled, so they are kept as millisecond counts. */
module InvoicesService {
  import opened Wrappers
  import Decimal

  datatype InvoiceStatus = Waiting | Confirmed | Expired | Rejected

  datatype Invoice = Invoice(
    id: string,
    createdAt: nat,
    expiresAt: nat,
    fiatAmount: real,
    fiatCurrency: string,
    cryptoAmount: real,
    cryptoCurrency: string,
    status: InvoiceStatus,
    paymentUrl: string)

  /** The request body of a create call. */
  datatype CreateInvoiceDto = CreateInvoiceDto(fiatAmount: real, fiatCurrency: string, cryptoCurrency: string)

  /** The service's array of invoices, oldest first. */
  type Store = seq<Invoice>

  /** How long a fresh invoice stays payable: 15 minutes. */
  const InvoiceTtlMs: nat := 15 * 60 * 1000

  const IdPrefix: string := "inv_"

  const PaymentUrlBase: string := "https://demo.your-cryptopay.com/open/pay/"

  /** The id generated from a clock reading. */
  function InvoiceId(clockMs: nat): string {
    IdPrefix + Decimal.NatToString(clockMs)
  }

  /** Recovers the clock reading an id was generated from. */
  function ParseInvoiceId(id: string): Option<int> {
    if |id| >= |IdPrefix| && id[..|IdPrefix|] == IdPrefix then Decimal.ParseInt(id[|IdPrefix|..]) else None
  }

  /** The store after a create, and the invoice it returned. */
  datatype Created = Created(store: Store, invoice: Invoice)

  /** Builds a waiting invoice and appends it to the store. The source reads
      the clock twice: `idClockMs` is the reading that names the invoice and
      `nowMs` the one that stamps it. */
  function Create(store: Store, dto: CreateInvoiceDto, idClockMs: nat, nowMs: nat): (c: Created)
    ensures c.store == store + [c.invoice]
    ensures c.invoice.status == Waiting
    ensures c.invoice.fiatAmount == dto.fiatAmount && c.invoice.cryptoAmount == dto.fiatAmount
    ensures c.invoice.fiatCurrency == dto.fiatCurrency && c.invoice.cryptoCurrency == dto.cryptoCurrency
    ensures c.invoice.createdAt == nowMs && c.invoice.expiresAt == nowMs + 900000
    ensures c.invoice.id == "inv_" + Decimal.NatToString(idClockMs)
    ensures c.invoice.paymentUrl == "https://demo.your-cryptopay.com/open/pay/" + c.invoice.id
  {
    var id := InvoiceId(idClockMs);
    var invoice := Invoice(
      id := id,
      createdAt := nowMs,
      expiresAt := nowMs + InvoiceTtlMs,
      fiatAmount := dto.fiatAmount,
      fiatCurrency := dto.fiatCurrency,
      cryptoAmount := dto.fiatAmount,
      cryptoCurrency := dto.cryptoCurrency,
      status := Waiting,
      paymentUrl := PaymentUrlBase + id);
    Created(store + [invoice], invoice)
  }

  /** Position `i` holds the first invoice of `store` whose id is `id`. */
  ghost predicate IsFirstMatch(store: Store, id: string, i: int) {
    0 <= i < |store| && store[i].id == id && forall j :: 0 <= j < i ==> store[j].id != id
  }

  ghost predicate Absent(store: Store, id: string) {
    forall j :: 0 <= j < |store| ==> store[j].id != id
  }

  /** Index of the first invoice with the given id (the search `Array.find` does). */
  function FirstIndex(store: Store, id: string): (r: Option<nat>)
    ensures r.None? <==> Absent(store, id)
    ensures r.Some? ==> IsFirstMatch(store, id, r.value)
    decreases |store|
  {
    if |store| == 0 then None
    else if store[0].id == id then Some(0)
    else match FirstIndex(store[1..], id)
      case None => None
      case Some(k) => Some(k + 1)
  }

  /** The first stored invoice with this id, if any. */
  function FindOne(store: Store, id: string): (r: Option<Invoice>)
    ensures r.None? <==> Absent(store, id)
    ensures r.Some? ==> exists i :: IsFirstMatch(store, id, i) && r.value == store[i]
  {
    match FirstIndex(store, id)
    case None => None
    case Some(i) => Some(store[i])
  }

  /** The store after a status update, and the invoice it returned. */
  datatype Updated = Updated(store: Store, invoice: Option<Invoice>)

  /** Overwrites the status of the first invoice with this id, whatever its
      current status; an unknown id changes nothing. */
  function UpdateStatus(store: Store, id: string, status: InvoiceStatus): (u: Updated)
    ensures u.invoice.None? <==> Absent(store, id)
    ensures u.invoice.None? ==> u.store == store
    ensures u.invoice.Some? ==>
      exists i :: (IsFirstMatch(store, id, i)
                   && u.store == store[i := store[i].(status := status)]
                   && u.invoice.value == u.store[i])
  {
    match FirstIndex(store, id)
    case None => Updated(store, None)
    case Some(i) =>
      var updated := store[i].(status := status);
      Updated(store[i := updated], Some(updated))
  }

  /** The ids of the store, in order. */
  function Ids(store: Store): (ids: seq<string>)
    ensures |ids| == |store|
    ensures forall k :: 0 <= k < |store| ==> ids[k] == store[k].id
  {
    seq(|store|, k requires 0 <= k < |store| => store[k].id)
  }

  /** The lifetime of every created invoice is exactly the 15-minute TTL. */
  lemma CreatedExpiresAfterTtl(store: Store, dto: CreateInvoiceDto, idClockMs: nat, nowMs: nat)
    ensures var inv := Create(store, dto, idClockMs, nowMs).invoice;
      inv.expiresAt - inv.createdAt == 15 * 60 * 1000
  {
  }

  /** The id names the clock reading it was made from, so two creates at
      different milliseconds give different ids; when both clock reads return
      the same millisecond the id names the creation time. */
  lemma CreatedIdEncodesClock(store: Store, dto: CreateInvoiceDto, idClockMs: nat, nowMs: nat)
    ensures ParseInvoiceId(Create(store, dto, idClockMs, nowMs).invoice.id) == Some(idClockMs)
    ensures idClockMs == nowMs ==>
      ParseInvoiceId(Create(store, dto, idClockMs, nowMs).invoice.id) == Some(Create(store, dto, idClockMs, nowMs).invoice.createdAt)
  {
    var id := Create(store, dto, idClockMs, nowMs).invoice.id;
    assert id[..|IdPrefix|] == IdPrefix;
    assert id[|IdPrefix|..] == Decimal.NatToString(idClockMs) == Decimal.IntToString(idClockMs);
    Decimal.IntRoundTrip(idClockMs);
  }

  lemma DistinctClocksDistinctIds(a: nat, b: nat)
    requires a != b
    ensures InvoiceId(a) != InvoiceId(b)
  {
    CreatedIdEncodesClock([], CreateInvoiceDto(0.0, "", ""), a, a);
    CreatedIdEncodesClock([], CreateInvoiceDto(0.0, "", ""), b, b);
  }

  /** The payment URL ends with the id, after the fixed base. */
  lemma PaymentUrlNamesId(store: Store, dto: CreateInvoiceDto, idClockMs: nat, nowMs: nat)
    ensures var inv := Create(store, dto, idClockMs, nowMs).invoice;
      |inv.paymentUrl| > |PaymentUrlBase| && inv.paymentUrl[|PaymentUrlBase|..] == inv.id
  {
  }

  /** A created invoice can be looked up by its id unless an earlier invoice
      already carries that id (two creates within one millisecond), in which
      case lookup keeps returning the earlier one and the new invoice is
      unreachable by id. */
  lemma {:induction false} FindAfterCreate(store: Store, dto: CreateInvoiceDto, idClockMs: nat, nowMs: nat)
    ensures var c := Create(store, dto, idClockMs, nowMs);
      FindOne(c.store, c.invoice.id) == if Absent(store, c.invoice.id) then Some(c.invoice) else FindOne(store, c.invoice.id)
  {
    var c := Create(store, dto, idClockMs, nowMs);
    FindOnAppend(store, c.invoice, c.invoice.id);
  }

  /** Appending an invoice never changes which invoice an id already finds. */
  lemma FindOnAppend(store: Store, inv: Invoice, id: string)
    ensures FindOne(store + [inv], id) == if !Absent(store, id) then FindOne(store, id)
      else if inv.id == id then Some(inv) else None
  {
    var s := store + [inv];
    match FindOne(store, id)
    case Some(x) =>
      var i :| IsFirstMatch(store, id, i) && x == store[i];
      FirstMatchUnique(s, id, i);
    case None =>
      if inv.id == id {
        assert IsFirstMatch(s, id, |store|);
        FirstMatchUnique(s, id, |store|);
      }
  }

  lemma FirstMatchUnique(store: Store, id: string, i: int)
    requires IsFirstMatch(store, id, i)
    ensures FindOne(store, id) == Some(store[i])
  {
  }

  /** After a successful update, looking the id up again finds the updated
      invoice, with the new status. */
  lemma FindAfterUpdate(store: Store, id: string, status: InvoiceStatus)
    requires UpdateStatus(store, id, status).invoice.Some?
    ensures FindOne(UpdateStatus(store, id, status).store, id) == UpdateStatus(store, id, status).invoice
    ensures FindOne(UpdateStatus(store, id, status).store, id).value.status == status
  {
  }

  /** An update leaves the ids, hence every other id's lookup, unchanged. */
  lemma UpdateKeepsOtherLookups(store: Store, id: string, status: InvoiceStatus, other: string)
    requires other != id
    ensures Ids(UpdateStatus(store, id, status).store) == Ids(store)
    ensures FindOne(UpdateStatus(store, id, status).store, other) == FindOne(store, other)
  {
  }

  /** There is no transition guard: an invoice that already left `waiting`
      can be moved to any status, back to `waiting` included. */
  lemma TerminalStatusIsOverwritten(store: Store, id: string, status: InvoiceStatus)
    requires FindOne(store, id).Some? && FindOne(store, id).value.status != Waiting
    ensures UpdateStatus(store, id, status).invoice.Some?
    ensures UpdateStatus(store, id, status).invoice.value.status == status
  {
  }

  /** Updating twice to the same status is the same as updating once. */
  lemma UpdateIdempotent(store: Store, id: string, status: InvoiceStatus)
    ensures var once := UpdateStatus(store, id, status);
      UpdateStatus(once.store, id, status) == once
  {
  }
}
