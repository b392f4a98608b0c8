# Electricity order service: a verified model

This Dafny project models the core of a small record-management service for
electricity trading orders. The service creates, reads, updates and deletes
orders, and it applies market rules to each order's trading window `[start, end)`:

- **Quarter-hour alignment.** `align_to_next_quarter` moves an instant forward
  to the next minute mark 00, 15, 30 or 45. `ms` converts an instant to epoch
  milliseconds. Module `TimeUtils`, file `time_utils.dfy`.
- **Order records.** The `Order` record, its create and update payloads, and
  the `OrderType` and `MarketType` enums. Module `Models`, file `models.dfy`.
- **In-memory repository.** A dictionary from order id to order, with
  list/get/create/update/delete. Module `Repositories`, file `repositories.dfy`.
- **Order service.** The Day-Ahead and Intra-Day default windows, alignment of
  a supplied start, repair of `end <= start`, and the "already expired" rule of
  `update`. Module `Services`, file `services.dfy`.

Data model (app/models/orders.py):

- `OrderType` (BUY, SELL) and `MarketType` (DAH, INTRADAY) are the two enums
  of lines 13-27.
- `Order` is the record of lines 33-39 and 82-88. The field `type` is named
  `marketType`, and the float `quantity` is a real number.
- `OrderCreate` (lines 58-66) and `OrderUpdate` (lines 69-79) are the request
  payloads. An absent optional field is `None`.

Representation choices:

- A `datetime` is an integer count of microseconds since the Unix epoch, in
  UTC. POSIX time counts no leap seconds, so an hour is exactly 3,600,000,000 µs.
  The minute of the hour, the start of the hour and the start of the day are
  therefore Euclidean remainders and quotients.
- `align_to_next_quarter` is written in its own hour/minute terms: the minute,
  a search of `QUARTER_MINUTES` for the first mark above it, `replace`, the
  roll into the next hour, and the final guard. It is then proved equal to the
  closed form `(t div 900000000 + 1) * 900000000`, which in milliseconds is
  `(t div 900000 + 1) * 900000`.
- The clock and the uuid generator are parameters. `now` is the instant
  `datetime.now(timezone.utc)` would return. `freshId` is the string
  `uuid.uuid4()` would return.
- The repository is a class whose map field `db` is reassigned by its methods.
  A sequence `keys` records the dict's insertion order, which is the order
  `list` returns.
- The service is a class holding the repository. `StoreInvariant` says that
  every stored order sits under its own id, passes the `Order` validators and
  has `start < end`. Every service operation preserves it.

Where the code and its documentation differ, the model follows the code:

- The docstring of `align_to_next_quarter` (app/utils/time.py:19) says that an
  instant on a quarter mark, but with seconds, stays at that minute. The code
  always moves strictly forward: 13:15:30 becomes 13:30, and 00:00:00 becomes
  00:15:00.
- The final guard of `align_to_next_quarter` (app/utils/time.py:30-31) can
  never fire. `GuardIsDead` proves it.
- The expired branch of `update` sets `start` to the current millisecond. That
  value is not aligned to a quarter hour, although the service is described as
  always aligning start times.

## Model

| member | source | states |
|---|---|---|
| TimeUtils.Minute | app/utils/time.py:24 | The minute of the hour is in 0..59, and the instant lies within that minute of its hour |
| TimeUtils.HourStart | app/utils/time.py:27 | `replace(minute=0, second=0, microsecond=0)` gives the hour boundary at or before the instant, less than an hour earlier |
| TimeUtils.TruncateToMinute | app/utils/time.py:30 | `replace(second=0, microsecond=0)` gives the minute boundary at or before the instant, less than a minute earlier |
| TimeUtils.ReplaceMinute | app/utils/time.py:29 | `replace(minute=q, second=0, microsecond=0)` stays in the same hour, has minute q and no seconds; `replace` accepts minutes 0 to 59 only |
| TimeUtils.FirstAbove | app/utils/time.py:25 | The generator search returns the index of the first mark above the minute: every earlier mark is at most the minute, and the mark found, if any, is above it |
| TimeUtils.NextQuarter | app/utils/time.py:12-26 | The chosen mark is in QUARTER_MINUTES, above the minute and no larger than any other mark above it; there is none exactly when every mark is at most the minute |
| TimeUtils.QuarterCandidate | app/utils/time.py:24-29 | The candidate before the guard has no seconds, has a minute in QUARTER_MINUTES, and lies after the start of the input's hour and at most one hour after it |
| TimeUtils.AlignToNextQuarter | app/utils/time.py:15-32 | The result lies on a quarter-hour boundary, strictly after the input (also when the input is on a boundary) and at most 15 minutes later; it equals the next multiple of 15 minutes |
| TimeUtils.CandidateClosedForm | app/utils/time.py:24-29 | The hour/minute candidate (a replaced minute, or the next hour) is the next multiple of 15 minutes after the input |
| TimeUtils.GuardIsDead | app/utils/time.py:30-31 | The candidate is always after the input truncated to the minute, so the extra 15 minutes are never added |
| TimeUtils.AlignSameHour | app/utils/time.py:25-29 | For a minute below 45, the result stays in the same hour, on the smallest mark above the minute, with seconds and microseconds zero |
| TimeUtils.AlignNextHour | app/utils/time.py:26-27 | For a minute from 45 on, the result is minute 0 of the next hour; epoch arithmetic carries into the next day |
| TimeUtils.AlignOnBoundary | app/utils/time.py:25-31 | An instant already on a quarter boundary moves forward by exactly 15 minutes, so alignment is never the identity |
| TimeUtils.Ms | app/utils/time.py:35-42 | The millisecond count is truncated toward zero and is less than one millisecond from the instant: rounded down for non-negative instants, rounded up for negative ones |
| TimeUtils.FromMs | app/services/orders.py:51 | `fromtimestamp(m / 1000)` gives an instant with no sub-millisecond part whose millisecond quotient is m |
| TimeUtils.MsFromMs | app/services/orders.py:51-53 | Turning milliseconds into a datetime and back with `ms` gives the same number |
| TimeUtils.MsOfAligned | app/utils/time.py:35-42 | `ms` of an aligned instant is exact (no sub-millisecond part is lost) and is itself a multiple of 900000 ms |
| TimeUtils.AlignMillis | app/services/orders.py:51-53 | Aligning a millisecond timestamp through a datetime gives `(t div 900000 + 1) * 900000` |
| TimeUtils.AlignExampleSameHour | tests/test_time_utils.py:5-10 | 2024-01-01 13:36 UTC aligns to 13:45 of hour 13 |
| TimeUtils.AlignExampleNextHour | tests/test_time_utils.py:12-16 | 2024-01-01 13:59 UTC aligns to 14:00 |
| Services.DayStart | app/services/orders.py:36-38 | The UTC midnight that starts the day of `now` lies on a day boundary, at or before `now` and less than a day earlier |
| Services.AlignStartMs | app/services/orders.py:97-99 | The aligned start is the next multiple of 15 minutes strictly after the given start, and at most 15 minutes after it |
| Services.DefaultStartEnd | app/services/orders.py:32-42 | Every default window lasts exactly 15 minutes and starts on a quarter boundary. For DAH it starts at tomorrow's UTC midnight plus 15 minutes. Otherwise it starts on the first boundary strictly after now |
| Services.DefaultStartOfDayAhead | app/services/orders.py:35-39 | Tomorrow's UTC midnight is `(now div day + 1) * day`; aligning it gives that midnight plus exactly 15 minutes |
| Services.IntradayDefault | app/services/orders.py:37-41 | For Intra-Day or no market type, the default window lasts 15 minutes. Its start is after now and at most 15 minutes after it |
| Services.CreateWindow | app/services/orders.py:46-55 | The window is the default one when start or end is missing. Otherwise start is aligned strictly forward, end is kept if it is after that start, else end becomes start + 15 min. Always end > start |
| Services.CreateLoneBound | app/services/orders.py:48-49 | A lone start, or a lone end, is ignored: create uses the default window |
| Services.CreateEqualStartEnd | tests/test_service.py:18-25 | A create whose start equals its end gets end - start == 15 minutes, with start aligned |
| Services.ReconcileWindow | app/services/orders.py:92-103 | An expired window (end before now) becomes [now, now + 15 min). Otherwise start is aligned strictly forward and end is repaired to start + 15 min when needed. Always end > start |
| Services.UpdateExpired | app/services/orders.py:93-95 | An update whose merged end is in the past gets start = now and end = now + 15 min, whatever start was supplied |
| Services.MergeUpdate | app/services/orders.py:86-114 | The updated order keeps id and created, writes the fixed product type, takes each supplied field and keeps each absent one, and carries the reconciled window |
| Services.StoreInvariant | app/services/orders.py:44-115 | What the service keeps true of the store: each order sits under its own id, passes the `Order` validators and has start < end |
| Services.OrderService.constructor | app/services/orders.py:29-30 | The service holds the repository it is given |
| Services.OrderService.Create | app/services/orders.py:44-67 | Stores under freshId, and returns, an order with the payload's fields, productType "ELECTRICITY", created = ms(now) and the create window. A new id goes last in the list order. Nothing else in the store changes, and the store invariant is preserved |
| Services.OrderService.List | app/services/orders.py:69-71 | Returns exactly the stored orders, one per id, in insertion order |
| Services.OrderService.Get | app/services/orders.py:73-75 | Returns the order stored under the id, or None when there is none |
| Services.OrderService.Update | app/services/orders.py:77-115 | An unknown id gives NotFound and changes nothing. A non-positive merged quantity gives Rejected and changes nothing. Otherwise the merged order replaces exactly that entry and is returned. The key order and the store invariant are preserved |
| Services.OrderService.Delete | app/services/orders.py:117-119 | Reports whether the id was stored and removes it; the other ids keep their list order; nothing else changes |
| Repositories.Without | app/repositories/orders.py:54 | Removing a key from the insertion order drops exactly its one occurrence. The other keys keep their order and stay distinct. An absent key leaves the sequence unchanged |
| Models.PassesValidation | app/models/orders.py:41-55 | The `Order` validators accept exactly the product type "ELECTRICITY" and a strictly positive quantity |
| Repositories.ValuesInOrder | app/repositories/orders.py:38 | Lists the stored order of each key, position by position |
| Repositories.KeysCount | app/repositories/orders.py:37-38 | A distinct key sequence listing exactly the dict's keys is as long as the dict |
| Repositories.InMemoryOrderRepository.constructor | app/repositories/orders.py:34-35 | A new repository is empty |
| Repositories.InMemoryOrderRepository.List | app/repositories/orders.py:37-38 | Returns exactly the stored values, one per key, in insertion order; every stored order appears |
| Repositories.InMemoryOrderRepository.Get | app/repositories/orders.py:40-41 | Returns the mapped order when the id is present, None otherwise |
| Repositories.InMemoryOrderRepository.Create | app/repositories/orders.py:43-45 | Stores the order under its id (silently overwriting) and returns it; a new id goes to the end of the insertion order; no other entry changes |
| Repositories.InMemoryOrderRepository.Update | app/repositories/orders.py:47-51 | An unknown id returns None and inserts nothing. A known id has exactly that entry replaced, and the new order is returned. The key order is unchanged |
| Repositories.InMemoryOrderRepository.Delete | app/repositories/orders.py:53-54 | Returns true iff the id was present, and removes exactly that entry |
| Repositories.CreateThenGet | app/repositories/orders.py:40-45 | A get right after a create returns the created order |
| Repositories.DeleteTwice | app/repositories/orders.py:53-54 | Deleting the same id twice reports existence first, then false |
| Repositories.UpdateUnknown | app/repositories/orders.py:47-49 | Updating an unknown id returns None, and a following get still finds nothing |

## Left out

- HTTP layer (app/api/v1/orders.py, app/api/v1/routes.py, app/main.py): routing, status codes, async handlers and the health endpoint are transport. The 404 mapping is a None/false check on the results modelled here.
- The abstract `OrderRepository` interface: the model has its one in-memory implementation and no interface type.
- Schema validation of the payloads is not modelled. `OrderService.Create` requires a positive quantity, which the `OrderCreate` validator guarantees. The product type of a create payload is not a field, because it can only be "ELECTRICITY". On update, the validation the `Order` constructor performs is modelled as the `Rejected` outcome.
- Wall-clock reads and uuid generation are parameters (`now`, `freshId`). `create` reads the clock twice (app/services/orders.py:34 and 63); the model uses one reading for both.
- Services.OrderService.Create: does not require `freshId` to be unused. A colliding id overwrites the stored order, as the dict assignment does. Uniqueness of uuids is not modelled.
- Float conversions are taken as exact: `dt.timestamp() * 1000` in `ms`, and `start / 1000` in `fromtimestamp`. The quantity is a real number rather than a binary float.
- The range limits of Python's `datetime` (years 1 to 9999) are not modelled; instants are unbounded integers.
- Time zones: the model is UTC only, so the naive-datetime branches (app/utils/time.py:22-23, 40-41) are not modelled.
- Sharing and concurrency of the module-level repository (app/api/v1/orders.py:17-18) are not modelled; operations run one at a time.
- The unused `data` argument of repository `create`/`update` carries no behaviour and is dropped.
