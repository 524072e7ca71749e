/** The HTTP controller over the invoice store: create, lookup and the three
    fixed status targets, with a missing invoice turned into a NotFound
    error. Routing and request decoding are not modelled; each handler is a
    function of the store and its arguments. */
module InvoicesController {
  import opened Wrappers
  import opened InvoicesService

  /** The `NotFoundException` the handlers raise, with its message. */
  datatype NotFound = NotFound(message: string)

  function NotFoundFor(id: string): NotFound {
    NotFound("Invoice with id " + id + " not found")
  }

  /** The store after a handler ran, and what the handler answered. */
  datatype Response = Response(store: Store, result: Result<Invoice, NotFound>)

  /** `POST /invoices`: hands the body to the service unchanged. */
  function Create(store: Store, dto: CreateInvoiceDto, idClockMs: nat, nowMs: nat): (c: Created)
    ensures c == InvoicesService.Create(store, dto, idClockMs, nowMs)
    ensures c.store == store + [c.invoice] && c.invoice.status == Waiting
  {
    InvoicesService.Create(store, dto, idClockMs, nowMs)
  }

  /** `GET /invoices/:id`. */
  function FindOne(store: Store, id: string): (r: Result<Invoice, NotFound>)
    ensures r.Failure? <==> Absent(store, id)
    ensures r.Success? ==> exists i :: IsFirstMatch(store, id, i) && r.value == store[i]
    ensures r.Failure? ==> r.error == NotFoundFor(id)
  {
    match InvoicesService.FindOne(store, id)
    case None => Failure(NotFoundFor(id))
    case Some(invoice) => Success(invoice)
  }

  /** Shared shape of the three status endpoints. */
  function Transition(store: Store, id: string, target: InvoiceStatus): (r: Response)
    ensures r.result.Failure? <==> Absent(store, id)
    ensures r.result.Failure? ==> r.store == store && r.result.error == NotFoundFor(id)
    ensures r.result.Success? ==>
      exists i :: (IsFirstMatch(store, id, i)
                   && r.store == store[i := store[i].(status := target)]
                   && r.result.value == r.store[i])
    ensures r.result.Success? ==>
      r.result.value.id == id && r.result.value.status == target && FindOne(r.store, id) == r.result
  {
    var u := UpdateStatus(store, id, target);
    match u.invoice
    case None => Response(u.store, Failure(NotFoundFor(id)))
    case Some(invoice) =>
      FindAfterUpdate(store, id, target);
      Response(u.store, Success(invoice))
  }

  /** `POST /invoices/:id/confirm`. */
  function Confirm(store: Store, id: string): (r: Response)
    ensures r.result.Failure? <==> Absent(store, id)
    ensures r.result.Failure? ==> r.store == store && r.result.error == NotFoundFor(id)
    ensures r.result.Success? ==>
      exists i :: (IsFirstMatch(store, id, i)
                   && r.store == store[i := store[i].(status := Confirmed)]
                   && r.result.value == r.store[i])
    ensures r.result.Success? ==> r.result.value.status == Confirmed && FindOne(r.store, id) == r.result
  {
    Transition(store, id, Confirmed)
  }

  /** `POST /invoices/:id/expire`. */
  function Expire(store: Store, id: string): (r: Response)
    ensures r.result.Failure? <==> Absent(store, id)
    ensures r.result.Failure? ==> r.store == store && r.result.error == NotFoundFor(id)
    ensures r.result.Success? ==>
      exists i :: (IsFirstMatch(store, id, i)
                   && r.store == store[i := store[i].(status := Expired)]
                   && r.result.value == r.store[i])
    ensures r.result.Success? ==> r.result.value.status == Expired && FindOne(r.store, id) == r.result
  {
    Transition(store, id, Expired)
  }

  /** `POST /invoices/:id/reject`. */
  function Reject(store: Store, id: string): (r: Response)
    ensures r.result.Failure? <==> Absent(store, id)
    ensures r.result.Failure? ==> r.store == store && r.result.error == NotFoundFor(id)
    ensures r.result.Success? ==>
      exists i :: (IsFirstMatch(store, id, i)
                   && r.store == store[i := store[i].(status := Rejected)]
                   && r.result.value == r.store[i])
    ensures r.result.Success? ==> r.result.value.status == Rejected && FindOne(r.store, id) == r.result
  {
    Transition(store, id, Rejected)
  }

  /** A confirmed invoice can still be expired: the controller adds no guard
      of its own over the service's unconditional overwrite. */
  lemma ExpireAfterConfirm(store: Store, id: string)
    requires !Absent(store, id)
    ensures Confirm(store, id).result.Success?
    ensures Expire(Confirm(store, id).store, id).result.Success?
    ensures Expire(Confirm(store, id).store, id).result.value.status == Expired
  {
    var c := Confirm(store, id);
    assert FindOne(c.store, id).Success?;
  }
}
