# psp-core invoice, risk, signing and CORS logic in Dafny

This project models the pure logic of `psp-core`, a payment service that
issues crypto invoices for fiat purchases. It covers five pieces:

- The in-memory **invoice store**. `create` appends a `waiting` invoice.
  `findOne` returns the first invoice with a given id. `updateStatus`
  overwrites the status of that first match.
- The **invoice controller**. It has the `create` and `findOne` handlers
  and the three fixed status targets `confirm`, `expire` and `reject`. A
  missing invoice becomes a `NotFound` error.
- The draft **AML check**. It gives a three-tier risk score from the fiat
  amount, then maps the score to a level and a manual-review flag.
- The **webhook signer**. The signed message is `<ts>.<body>`. The
  signature is an HMAC over it, as defined in section 2 of RFC 2104, with
  SHA-256. The headers are `psp-timestamp` and
  `psp-signature: t=<ts>, v1=<sig>`. `verifySignature` recomputes the
  signature and compares it with the given one through `timingSafeEqual`.
- The **CORS allow-list** set up at bootstrap. `parseOrigins` reads the
  origin list from the environment. The list of allowed origins is built
  and de-duplicated, and each request's origin is decided against it.

Everything is a pure function over immutable data. The store is a
`seq<Invoice>`. Clock readings are passed in as integers (milliseconds).
HMAC-SHA256 is passed in as a function-valued parameter `mac(key, message)`,
and the serialised JSON body is an opaque string. Environment variables are
`Option<string>` (`None` when unset).

Modules, one per source file plus three helpers:

| file | module | models |
|---|---|---|
| `wrappers.dfy` | `Wrappers` | `Option` (for `undefined`) and `Result` (for thrown errors) |
| `decimal.dfy` | `Decimal` | `${n}` for integral numbers, plus a parser that inverts it |
| `js_strings.dfy` | `JsStrings` | `split` on one character and `trim` as ECMA-262 defines them, with the first-occurrence search `split` uses as a helper |
| `invoices_service.dfy` | `InvoicesService` | `invoices.service.ts` |
| `invoices_controller.dfy` | `InvoicesController` | `invoices.controller.ts` |
| `aml_service.dfy` | `AmlService` | `aml.service.ts` |
| `webhook_signer.dfy` | `WebhookSigner` | `webhook.signer.ts` |
| `cors_origins.dfy` | `CorsOrigins` | the CORS part of `main.ts` |

Three properties of the code that the model keeps:

- `updateStatus` has no transition guard. It overwrites any status, and it
  can move an invoice back to `waiting` (`TerminalStatusIsOverwritten`,
  `ExpireAfterConfirm`).
- `create` does not validate the amount and does not upper-case the
  currency codes.
- The risk score depends on the amount alone, with tiers 5 / 40 / 80
  (`CurrenciesIgnored`).

Two things the model makes explicit:

- `create` reads the clock twice. `Date.now()` names the invoice and
  `new Date()` stamps it, so the model takes two readings (`idClockMs`,
  `nowMs`). When they agree, the id encodes the creation time
  (`CreatedIdEncodesClock`).
- Two invoices created in the same millisecond get the same id. Lookup and
  update then always reach the earlier one, so the later one cannot be
  reached by id (`FindAfterCreate`).

## Model

| member | source | states |
|---|---|---|
| `InvoicesService.Create` | psp-core/src/invoices/invoices.service.ts:32-58 | the store grows by exactly the new invoice at the end; it is `waiting`, `cryptoAmount` equals `fiatAmount`, both currencies are copied unchanged, `expiresAt` is `createdAt` + 900000 ms, the id is `inv_` plus the decimal clock reading, the payment URL is the fixed base plus the id |
| `InvoicesService.CreatedExpiresAfterTtl` | psp-core/src/invoices/invoices.service.ts:36-44 | every created invoice is payable for exactly 15 × 60 × 1000 ms |
| `InvoicesService.CreatedIdEncodesClock` | psp-core/src/invoices/invoices.service.ts:34-43 | the clock reading can be read back from the id; when both clock reads agree the id names `createdAt` |
| `InvoicesService.DistinctClocksDistinctIds` | psp-core/src/invoices/invoices.service.ts:34 | creates at different milliseconds get different ids |
| `InvoicesService.PaymentUrlNamesId` | psp-core/src/invoices/invoices.service.ts:51 | the payment URL is the fixed base followed by the invoice's id |
| `InvoicesService.FirstIndex` | psp-core/src/invoices/invoices.service.ts:62 | the `find` search: absent iff no invoice has the id, otherwise the smallest index holding it |
| `InvoicesService.FindOne` | psp-core/src/invoices/invoices.service.ts:61-63 | none iff no stored invoice has the id; otherwise the first stored invoice with it |
| `InvoicesService.FindOnAppend` | psp-core/src/invoices/invoices.service.ts:55-63 | appending an invoice never changes what an already-present id finds; a new id finds the appended invoice |
| `InvoicesService.FindAfterCreate` | psp-core/src/invoices/invoices.service.ts:55-62 | a created invoice is found by its id unless an earlier invoice has the same id, in which case that earlier one is still found |
| `InvoicesService.UpdateStatus` | psp-core/src/invoices/invoices.service.ts:67-76 | unknown id: none and store unchanged; known id: the first match alone gets the new status whatever it had, with every other field and invoice unchanged, and it is returned |
| `InvoicesService.FindAfterUpdate` | psp-core/src/invoices/invoices.service.ts:61-75 | after a successful update, lookup of the id returns the updated invoice, with the new status |
| `InvoicesService.UpdateKeepsOtherLookups` | psp-core/src/invoices/invoices.service.ts:67-75 | an update keeps the sequence of ids, and lookups of every other id give the same result as before |
| `InvoicesService.TerminalStatusIsOverwritten` | psp-core/src/invoices/invoices.service.ts:67-75 | an invoice that already left `waiting` can be set to any status, `waiting` included |
| `InvoicesService.UpdateIdempotent` | psp-core/src/invoices/invoices.service.ts:67-75 | repeating an update with the same status changes nothing more |
| `InvoicesController.Create` | psp-core/src/invoices/invoices.controller.ts:24-26 | the handler is the service's create, unchanged |
| `InvoicesController.FindOne` | psp-core/src/invoices/invoices.controller.ts:33-41 | NotFound with message `Invoice with id <id> not found` iff no invoice has the id; otherwise the first stored invoice with it |
| `InvoicesController.Transition` | psp-core/src/invoices/invoices.controller.ts:49-55 | NotFound iff the id is unknown, and then the store is unchanged; otherwise the first match alone gets the target status, every other field and invoice is unchanged, that updated invoice is returned, and a later lookup returns it |
| `InvoicesController.Confirm` | psp-core/src/invoices/invoices.controller.ts:48-56 | a known id: the first match alone becomes `confirmed`, with every other field and invoice unchanged, and is returned and found by a later lookup; an unknown id gives NotFound and leaves the store unchanged |
| `InvoicesController.Expire` | psp-core/src/invoices/invoices.controller.ts:63-71 | the same, with status `expired` |
| `InvoicesController.Reject` | psp-core/src/invoices/invoices.controller.ts:78-86 | the same, with status `rejected` |
| `InvoicesController.ExpireAfterConfirm` | psp-core/src/invoices/invoices.controller.ts:48-71 | for a known id, confirming succeeds and expiring afterwards also succeeds, with status `expired`: there is no guard on terminal states |
| `AmlService.AmountRiskScore` | psp-core/src/aml/aml.service.ts:30-36 | the tier score always lies in 0..100 |
| `AmlService.CheckInvoice` | psp-core/src/aml/aml.service.ts:26-49 | a total check: score 80 iff amount ≥ 10000, 40 iff 3000 ≤ amount < 10000, 5 iff amount < 3000 (zero and negative included); level high / medium / low on the same bands; flagged iff the level is not low, iff amount ≥ 3000 |
| `AmlService.LevelThresholds` | psp-core/src/aml/aml.service.ts:38-39 | for any score: high iff ≥ 70, medium iff in [30, 70), low iff < 30 |
| `AmlService.ScoreMonotone` | psp-core/src/aml/aml.service.ts:30-39 | a larger amount never gives a lower score or a lower level |
| `AmlService.CurrenciesIgnored` | psp-core/src/aml/aml.service.ts:27-48 | two inputs with the same amount get the same verdict, whatever their currencies |
| `Decimal.IntRoundTrip` | psp-core/src/webhooks/webhook.signer.ts:35 | the decimal rendering of an integer reads back as that integer |
| `Decimal.IntToStringInjective` | psp-core/src/invoices/invoices.service.ts:34 | different integers render differently |
| `JsStrings.IndexOf` | psp-core/src/main.ts:9 | the search `split` performs for its separator: position of the first occurrence of a character, or none iff the character does not occur |
| `JsStrings.Split` | psp-core/src/main.ts:9 | at least one piece, no piece contains the separator, and joining the pieces with it gives back the input |
| `JsStrings.SplitJoin` | psp-core/src/main.ts:9 | splitting a join of separator-free pieces gives back the pieces |
| `JsStrings.SplitAppend` | psp-core/src/main.ts:9 | splitting `a,b` gives the pieces of `a` followed by the pieces of `b` |
| `JsStrings.TrimStart` | psp-core/src/main.ts:10 | drops the white space at the front and only that |
| `JsStrings.TrimEnd` | psp-core/src/main.ts:10 | drops the white space at the back and only that |
| `JsStrings.Trim` | psp-core/src/main.ts:10 | the result is an infix of the input with only white space around it, and it starts and ends with non-white space |
| `JsStrings.TrimTrimmed` | psp-core/src/main.ts:10 | trimming a string with no white space at either end changes nothing |
| `CorsOrigins.NonEmpty` | psp-core/src/main.ts:11 | keeps exactly the non-empty strings |
| `CorsOrigins.NonEmptyAppend` | psp-core/src/main.ts:11 | filtering distributes over concatenation, so the kept strings stay in input order |
| `CorsOrigins.ParseOrigins` | psp-core/src/main.ts:6-12 | unset or empty gives the empty list; each element is non-empty, trimmed and comma-free; an element occurs iff it is the non-empty trim of some comma-separated piece |
| `CorsOrigins.ParseOriginsOfJoin` | psp-core/src/main.ts:6-12 | parsing a comma-join of clean origins returns them in order, with repeats |
| `CorsOrigins.ParseOriginsPieces` | psp-core/src/main.ts:7-11 | a set value, empty included, parses to the non-empty trims of its comma-separated pieces |
| `CorsOrigins.ParseOriginsAppend` | psp-core/src/main.ts:6-12 | the origins of `a,b` are the origins of `a` followed by those of `b`: input order is kept |
| `CorsOrigins.AllowedOrigins` | psp-core/src/main.ts:29-37 | the non-empty env origins, then the legacy origin if set and non-empty, then `http://localhost:3000`, `:3001`, `:3002` |
| `CorsOrigins.FirstPosition` | psp-core/src/main.ts:39 | index of the first occurrence of a value |
| `CorsOrigins.Dedup` | psp-core/src/main.ts:39 | no duplicates, the same elements as the input, listed in the order of their first occurrence |
| `CorsOrigins.AllowedOriginsUnique` | psp-core/src/main.ts:26-39 | the final list has no duplicates, always contains the three development origins, and contains exactly the parsed env origins, the truthy legacy origin and those defaults, in first-occurrence order |
| `CorsOrigins.OriginDecision` | psp-core/src/main.ts:42-51 | allowed iff the origin is absent, empty or listed; otherwise blocked with `CORS blocked for origin: <origin>` |
| `CorsOrigins.DecisionIgnoresDuplicates` | psp-core/src/main.ts:39-48 | deciding against the de-duplicated list gives the same answer as against the raw list |
| `CorsOrigins.DevDefaultsAlwaysAllowed` | psp-core/src/main.ts:29-48 | the three development origins pass whatever the environment holds |
| `CorsOrigins.UnconfiguredAllowsOnlyDefaults` | psp-core/src/main.ts:26-50 | with neither variable set, a non-empty origin passes iff it is a development origin |
| `WebhookSigner.SignPayload` | psp-core/src/webhooks/webhook.signer.ts:12-20 | the signature is the MAC, under the signer's secret, of the decimal timestamp, a dot and the payload |
| `WebhookSigner.SignedMessageRoundTrip` | psp-core/src/webhooks/webhook.signer.ts:13 | the timestamp and payload can be read back from the signed message |
| `WebhookSigner.SignedMessageInjective` | psp-core/src/webhooks/webhook.signer.ts:13 | different (timestamp, payload) pairs give different signed messages |
| `WebhookSigner.SignDeterministic` | psp-core/src/webhooks/webhook.signer.ts:12-19 | the same secret, payload and timestamp give the same signature |
| `WebhookSigner.UnixSeconds` | psp-core/src/webhooks/webhook.signer.ts:29 | the whole number of seconds in the millisecond reading (floor) |
| `WebhookSigner.GenerateHeaders` | psp-core/src/webhooks/webhook.signer.ts:28-39 | `psp-timestamp` is the decimal second count; `psp-signature` is `t=<same ts>, v1=<signature of the body at that ts>`; content-type is `application/json` |
| `WebhookSigner.SignatureHeaderRoundTrip` | psp-core/src/webhooks/webhook.signer.ts:36 | the `t=…, v1=…` header reads back as its timestamp and signature |
| `WebhookSigner.HeadersVerify` | psp-core/src/webhooks/webhook.signer.ts:28-53 | the signature header of generated headers parses; its timestamp is the whole-second clock reading and equals `psp-timestamp`, and verifying the body with the parsed timestamp and signature gives true |
| `WebhookSigner.Utf8Width` | psp-core/src/webhooks/webhook.signer.ts:51-52 | a character takes 1 to 4 bytes in UTF-8 |
| `WebhookSigner.Utf8Length` | psp-core/src/webhooks/webhook.signer.ts:51-52 | the byte length of a string's UTF-8 encoding lies between its length and four times its length |
| `WebhookSigner.AsciiUtf8Length` | psp-core/src/webhooks/webhook.signer.ts:51-52 | an ASCII string's UTF-8 encoding has one byte per character |
| `WebhookSigner.AsciiLengthMismatch` | psp-core/src/webhooks/webhook.signer.ts:49-53 | when the expected hex tag and the offered signature are both ASCII, verification raises the length error iff their character counts differ |
| `WebhookSigner.VerifySignature` | psp-core/src/webhooks/webhook.signer.ts:44-54 | a length error iff the UTF-8 byte lengths of the expected and given signatures differ; otherwise true iff the given signature equals the recomputed one |
| `WebhookSigner.SignVerifyRoundTrip` | psp-core/src/webhooks/webhook.signer.ts:44-53 | a signature verifies against the payload and timestamp it was made for |
| `WebhookSigner.WrongSignatureRefused` | psp-core/src/webhooks/webhook.signer.ts:49-53 | a different signature of the same byte length gives false, not an error |
| `WebhookSigner.ForgeryNeedsMacCollision` | psp-core/src/webhooks/webhook.signer.ts:44-53 | if a signature is accepted for a changed payload or timestamp, the MAC gave the same tag for two different messages |

## Left out

- The webhook outbox and dispatcher (enqueue, pending lists, retry counts, send policy). The source has only the `WebhookEvent` type and its table schema, with no code that uses them.
- `sqlite.service.ts`: directory creation, opening the database, schema DDL and migrations. This is I/O only.
- Attaching a transaction and partial AML updates (`attach-transaction.dto.ts`, `update-aml.dto.ts`), and the provider result type in `aml.types.ts`. These are shapes with no code that applies them.
- The HMAC-SHA256 computation, hex encoding and `JSON.stringify`. These are library calls; the MAC is a parameter and the body is an opaque string.
- `Date.now()`, `new Date()` and ISO-8601 formatting. The clock is a parameter, and `createdAt`/`expiresAt` are kept as millisecond counts, not ISO strings.
- Aliasing. The service returns the same object it stores, so a later status update also changes invoices handed out earlier. The model is value-based and returns copies.
- NestJS modules, decorators, dependency injection, `ValidationPipe`, `enableCors` wiring, `app.listen`, logging and parsing `PORT`. These are framework plumbing.
- The `async`/`Promise` wrapper of `checkInvoice`. Its logic is synchronous, so it is a pure function.
- JavaScript number semantics. Amounts are `real`, so NaN and infinities are not modelled. Timestamps are integers, so the exponent form JavaScript prints for magnitudes of 10^21 and above, and fractional timestamps, are not modelled.
- WebhookSigner.VerifySignature: the constant-time behaviour of `timingSafeEqual` is not modelled; the model compares with `==`. It compares strings, not the bytes of their UTF-8 encodings; the encoding itself is not modelled, only its byte length. Strings are modelled as sequences of Unicode scalar values, so JavaScript strings holding a lone UTF-16 surrogate cannot be represented. `Buffer.from` encodes such a surrogate as EF BF BD, the bytes of U+FFFD, so for those strings byte equality is not string equality. For well-formed strings UTF-8 is injective and the two agree; the real expected value is an ASCII hex digest.
