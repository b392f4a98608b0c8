/**
 * The order record and its input payloads (app/models/orders.py).
 *
 * Timestamps of orders are epoch milliseconds; the quantity, a positive
 * float in MWh, is a real number. Schema validation of the payloads happens
 * before the service is reached and is not modelled beyond the facts it
 * guarantees (a positive quantity, the fixed product type).
 */
module Models {

  import opened Wrappers

  datatype OrderType = BUY | SELL

  datatype MarketType = DAH | INTRADAY

  /** The only product the service accepts and writes. */
  const PRODUCT_TYPE: string := "ELECTRICITY"

  /** A stored order; `marketType` is the record's `type` field. */
  datatype Order = Order(
    id: string,
    orderType: OrderType,
    productType: string,
    marketType: Option<MarketType>,
    quantity: real,
    created: int,
    start: int,
    end: int)

  /** Payload of a create request, already validated (quantity > 0). */
  datatype OrderCreate = OrderCreate(
    orderType: OrderType,
    marketType: Option<MarketType>,
    quantity: real,
    start: Option<int>,
    end: Option<int>)

  /** Payload of an update request; an absent field keeps the stored value. */
  datatype OrderUpdate = OrderUpdate(
    orderType: Option<OrderType>,
    marketType: Option<MarketType>,
    quantity: Option<real>,
    start: Option<int>,
    end: Option<int>)

  /**
   * What the `Order` schema's validators accept: the fixed product type and a
   * strictly positive quantity.
   */
  predicate PassesValidation(o: Order)
  {
    o.productType == PRODUCT_TYPE && o.quantity > 0.0
  }
}
