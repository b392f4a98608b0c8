/**
 * Business rules for electricity orders (app/services/orders.py).
 *
 * The clock and the id generator are parameters: `now` is the instant
 * `datetime.now(timezone.utc)` returns, in epoch microseconds, and `freshId`
 * is the string `uuid.uuid4()` produces. Order timestamps are epoch
 * milliseconds.
 */
module Services {

  import opened Wrappers
  import opened TimeUtils
  import opened Models
  import opened Repositories

  /** `FIFTEEN_MINUTES`: one quarter hour in milliseconds. */
  const FIFTEEN_MINUTES: int := 15 * 60 * 1000

  const MS_PER_DAY: int := 86_400_000

  /** A trading window `[start, end)` in epoch milliseconds. */
  datatype Window = Window(start: int, end: int)

  /** What `update` gives back: no such order, the stored order, or a validation error. */
  datatype UpdateResult =
    | NotFound
    | Updated(order: Order)
      /** Constructing the `Order` raised: the merged quantity is not positive. */
    | Rejected

  /** `datetime(now.year, now.month, now.day, tzinfo=timezone.utc)`: midnight UTC of now's day. */
  function DayStart(now: int): (d: int)
    ensures d % US_PER_DAY == 0
    ensures d <= now < d + US_PER_DAY
  {
    now - now % US_PER_DAY
  }

  /**
   * `ms(align_to_next_quarter(datetime.fromtimestamp(start / 1000)))`: the
   * next quarter-hour mark strictly after a millisecond timestamp.
   */
  function AlignStartMs(start: int): (r: int)
    ensures r == (start / FIFTEEN_MINUTES + 1) * FIFTEEN_MINUTES
    ensures r % FIFTEEN_MINUTES == 0
    ensures start < r <= start + FIFTEEN_MINUTES
  {
    AlignMillis(start);
    Ms(AlignToNextQuarter(FromMs(start)))
  }

  /**
   * `_default_start_end`: a quarter-hour window starting at 00:15 UTC of the
   * next day for the Day-Ahead market, and otherwise at the next quarter-hour
   * mark after now.
   */
  function DefaultStartEnd(marketType: Option<MarketType>, now: int): (w: Window)
    ensures w.end - w.start == FIFTEEN_MINUTES
    ensures w.start % FIFTEEN_MINUTES == 0
    ensures marketType == Some(DAH) ==>
      w.start == (now / US_PER_DAY + 1) * MS_PER_DAY + FIFTEEN_MINUTES
    ensures marketType != Some(DAH) ==>
      w.start == (now / US_PER_QUARTER + 1) * FIFTEEN_MINUTES
    ensures marketType != Some(DAH) ==> now < FromMs(w.start) <= now + US_PER_QUARTER
  {
    // start_base is computed for both market types but used only for DAH.
    var startBase := if marketType == Some(DAH) then DayStart(now) + US_PER_DAY else DayStart(now);
    var startAligned := AlignToNextQuarter(if marketType != Some(DAH) then now else startBase);
    MsOfAligned(if marketType != Some(DAH) then now else startBase);
    var startMs := Ms(startAligned);
    DefaultStartOfDayAhead(now);
    Window(startMs, startMs + FIFTEEN_MINUTES)
  }

  /**
   * Tomorrow's midnight is on a quarter mark, so aligning it moves it exactly
   * one quarter hour, to 00:15 of the next day.
   */
  lemma {:induction false} DefaultStartOfDayAhead(now: int)
    ensures AlignToNextQuarter(DayStart(now) + US_PER_DAY) == DayStart(now) + US_PER_DAY + US_PER_QUARTER
    ensures DayStart(now) + US_PER_DAY == (now / US_PER_DAY + 1) * US_PER_DAY
  {
    var d := now / US_PER_DAY;
    assert DayStart(now) + US_PER_DAY == (d + 1) * 96 * US_PER_QUARTER;
    AlignOnBoundary(DayStart(now) + US_PER_DAY);
  }

  /**
   * The window `create` stores: the default window unless both start and end
   * are given; otherwise start moved to the next quarter mark after it, and
   * end kept only if it is still after that start.
   */
  function CreateWindow(start: Option<int>, end: Option<int>, marketType: Option<MarketType>, now: int): (w: Window)
    ensures w.start < w.end
    ensures start.None? || end.None? ==> w == DefaultStartEnd(marketType, now)
    ensures start.Some? && end.Some? ==>
      && w.start % FIFTEEN_MINUTES == 0
      && start.value < w.start <= start.value + FIFTEEN_MINUTES
      && (end.value > w.start ==> w.end == end.value)
      && (end.value <= w.start ==> w.end == w.start + FIFTEEN_MINUTES)
  {
    if start.None? || end.None? then DefaultStartEnd(marketType, now)
    else
      var s := AlignStartMs(start.value);
      Window(s, if end.value <= s then s + FIFTEEN_MINUTES else end.value)
  }

  /**
   * The window `update` stores for a merged start and end: an already expired
   * window (end before now) is replaced by the quarter hour from now;
   * otherwise start moves to the next quarter mark after it, and end is kept
   * only if it is still after that start.
   */
  function ReconcileWindow(start: int, end: int, nowMs: int): (w: Window)
    ensures w.start < w.end
    ensures end < nowMs ==> w.start == nowMs && w.end == nowMs + FIFTEEN_MINUTES
    ensures end >= nowMs ==>
      && w.start % FIFTEEN_MINUTES == 0
      && start < w.start <= start + FIFTEEN_MINUTES
      && (end > w.start ==> w.end == end)
      && (end <= w.start ==> w.end == w.start + FIFTEEN_MINUTES)
  {
    if end < nowMs then Window(nowMs, nowMs + FIFTEEN_MINUTES)
    else
      var s := AlignStartMs(start);
      Window(s, if end <= s then s + FIFTEEN_MINUTES else end)
  }

  /**
   * The order `update` builds from the stored order and a partial payload:
   * every absent field keeps the stored value, the id and creation time never
   * change, the product type is the constant, and the window is reconciled.
   */
  function MergeUpdate(existing: Order, data: OrderUpdate, nowMs: int): (o: Order)
    ensures o.id == existing.id && o.created == existing.created
    ensures o.productType == PRODUCT_TYPE
    ensures o.start < o.end
    ensures data.orderType.None? ==> o.orderType == existing.orderType
    ensures data.orderType.Some? ==> o.orderType == data.orderType.value
    ensures data.marketType.None? ==> o.marketType == existing.marketType
    ensures data.marketType.Some? ==> o.marketType == data.marketType
    ensures data.quantity.None? ==> o.quantity == existing.quantity
    ensures data.quantity.Some? ==> o.quantity == data.quantity.value
    ensures Window(o.start, o.end)
         == ReconcileWindow(data.start.GetOr(existing.start), data.end.GetOr(existing.end), nowMs)
  {
    var w := ReconcileWindow(data.start.GetOr(existing.start), data.end.GetOr(existing.end), nowMs);
    Order(
      existing.id,
      data.orderType.GetOr(existing.orderType),
      PRODUCT_TYPE,
      if data.marketType.Some? then data.marketType else existing.marketType,
      data.quantity.GetOr(existing.quantity),
      existing.created,
      w.start,
      w.end)
  }

  /**
   * What the service keeps true of the store: every order sits under its own
   * id, would pass the schema's validators, and has a non-empty window.
   */
  ghost predicate StoreInvariant(db: map<string, Order>)
  {
    forall k :: k in db ==> db[k].id == k && PassesValidation(db[k]) && db[k].start < db[k].end
  }

  class OrderService {
    const repo: InMemoryOrderRepository

    constructor (repo: InMemoryOrderRepository)
      ensures this.repo == repo
    {
      this.repo := repo;
    }

    /** The repository is consistent and every stored order keeps the invariant. */
    ghost predicate Valid()
      reads this, repo
    {
      repo.Valid() && StoreInvariant(repo.db)
    }

    /** Create and store a new order under freshId, stamped with now. */
    method Create(data: OrderCreate, now: int, freshId: string) returns (order: Order)
      requires repo.Valid()
      requires data.quantity > 0.0
      modifies repo
      ensures repo.Valid()
      ensures order.id == freshId && order.created == Ms(now)
      ensures order.productType == PRODUCT_TYPE
      ensures order.orderType == data.orderType && order.marketType == data.marketType
      ensures order.quantity == data.quantity
      ensures Window(order.start, order.end) == CreateWindow(data.start, data.end, data.marketType, now)
      ensures repo.db == old(repo.db)[freshId := order]
      ensures repo.keys == if freshId in old(repo.db) then old(repo.keys) else old(repo.keys) + [freshId]
      ensures old(Valid()) ==> Valid()
    {
      var start: int;
      var end: int;
      if data.start.None? || data.end.None? {
        var w := DefaultStartEnd(data.marketType, now);
        start, end := w.start, w.end;
      } else {
        var dtStart := FromMs(data.start.value);
        var aligned := AlignToNextQuarter(dtStart);
        start := Ms(aligned);
        end := data.end.value;
        if end <= start {
          end := start + FIFTEEN_MINUTES;
        }
      }
      var o := Order(freshId, data.orderType, PRODUCT_TYPE, data.marketType, data.quantity, Ms(now), start, end);
      order := repo.Create(o);
    }

    /** All stored orders, as the repository lists them. */
    method List() returns (r: seq<Order>)
      requires repo.Valid()
      ensures |r| == |repo.keys| == |repo.db|
      ensures forall i :: 0 <= i < |r| ==> r[i] == repo.db[repo.keys[i]]
      ensures forall k :: k in repo.db ==> repo.db[k] in r
    {
      r := repo.List();
    }

    /** The order stored under id, if any. */
    method Get(id: string) returns (r: Option<Order>)
      ensures r.Some? <==> id in repo.db
      ensures r.Some? ==> r.value == repo.db[id]
    {
      r := repo.Get(id);
    }

    /**
     * Merge a partial payload into the order stored under id and reconcile its
     * window against now; an unknown id and a rejected order change nothing.
     */
    method Update(id: string, data: OrderUpdate, now: int) returns (r: UpdateResult)
      requires repo.Valid()
      modifies repo
      ensures repo.Valid() && repo.keys == old(repo.keys)
      ensures id !in old(repo.db) ==> r == NotFound && repo.db == old(repo.db)
      ensures id in old(repo.db) && MergeUpdate(old(repo.db)[id], data, Ms(now)).quantity <= 0.0 ==>
        r == Rejected && repo.db == old(repo.db)
      ensures id in old(repo.db) && MergeUpdate(old(repo.db)[id], data, Ms(now)).quantity > 0.0 ==>
        && r == Updated(MergeUpdate(old(repo.db)[id], data, Ms(now)))
        && repo.db == old(repo.db)[id := r.order]
      ensures old(Valid()) ==> Valid()
    {
      var existing := repo.Get(id);
      if existing.None? {
        return NotFound;
      }
      var ex := existing.value;
      var orderType := data.orderType.GetOr(ex.orderType);
      var marketType := if data.marketType.Some? then data.marketType else ex.marketType;
      var quantity := data.quantity.GetOr(ex.quantity);
      var start := data.start.GetOr(ex.start);
      var end := data.end.GetOr(ex.end);

      var nowMs := Ms(now);
      if end < nowMs {
        start := nowMs;
        end := nowMs + FIFTEEN_MINUTES;
      } else {
        var alignedStart := Ms(AlignToNextQuarter(FromMs(start)));
        AlignMillis(start);
        // Alignment always moves strictly forward, so this test always succeeds.
        assert alignedStart > start;
        if alignedStart != start {
          start := alignedStart;
        }
        if end <= start {
          end := start + FIFTEEN_MINUTES;
        }
      }

      // The Order constructor validates its fields and raises on a
      // non-positive quantity, before anything is stored.
      if quantity <= 0.0 {
        return Rejected;
      }
      var updated := Order(ex.id, orderType, PRODUCT_TYPE, marketType, quantity, ex.created, start, end);
      var stored := repo.Update(id, updated);
      r := if stored.Some? then Updated(stored.value) else NotFound;
    }

    /** Remove the order stored under id, reporting whether there was one. */
    method Delete(id: string) returns (existed: bool)
      requires repo.Valid()
      modifies repo
      ensures repo.Valid()
      ensures existed <==> id in old(repo.db)
      ensures repo.db == old(repo.db) - {id}
      ensures repo.keys == Without(old(repo.keys), id)
      ensures old(Valid()) ==> Valid()
    {
      existed := repo.Delete(id);
    }
  }

  /**
   * Intra-Day and unspecified defaults: a quarter hour starting on the first
   * quarter mark strictly after now.
   */
  lemma {:induction false} IntradayDefault(marketType: Option<MarketType>, now: int)
    requires marketType != Some(DAH)
    ensures var w := DefaultStartEnd(marketType, now);
      && w.end - w.start == FIFTEEN_MINUTES
      && w.start * 1000 > now
      && (w.start - FIFTEEN_MINUTES) * 1000 <= now
  {
  }

  /**
   * A create whose start equals its end gets the quarter hour from the
   * aligned start: end is recomputed, never left equal to start.
   */
  lemma {:induction false} CreateEqualStartEnd(t: int, marketType: Option<MarketType>, now: int)
    ensures var w := CreateWindow(Some(t), Some(t), marketType, now);
      w.end - w.start == FIFTEEN_MINUTES && w.start % FIFTEEN_MINUTES == 0
  {
  }

  /** A lone start (or a lone end) is ignored: create uses the default window. */
  lemma {:induction false} CreateLoneBound(t: int, marketType: Option<MarketType>, now: int)
    ensures CreateWindow(Some(t), None, marketType, now) == DefaultStartEnd(marketType, now)
    ensures CreateWindow(None, Some(t), marketType, now) == DefaultStartEnd(marketType, now)
  {
  }

  /**
   * An update whose merged end is in the past yields the quarter hour from
   * now, whatever start was supplied.
   */
  lemma {:induction false} UpdateExpired(existing: Order, data: OrderUpdate, nowMs: int)
    requires data.end.GetOr(existing.end) < nowMs
    ensures MergeUpdate(existing, data, nowMs).start == nowMs
    ensures MergeUpdate(existing, data, nowMs).end == nowMs + FIFTEEN_MINUTES
  {
  }
}
