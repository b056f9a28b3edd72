/** The exchange's orders, fills and reports.  Readings of the wall clock in fills and reports are
    not modelled; an order's own timestamp is. */
module ExchangeTypes {
  import opened Bytes

  /** A std::string is a sequence of bytes. */
  type Symbol = seq<Byte>

  datatype Side = Buy | Sell {
    function Other(): Side { if Buy? then Sell else Buy }
  }

  datatype OrderType = Limit | Market

  datatype Status = New | PartiallyFilled | Filled | Cancelled | Rejected

  datatype Order = Order(orderId: nat, symbol: Symbol, side: Side, kind: OrderType, price: nat,
                         quantity: nat, remaining: nat, timestamp: nat, clientId: nat)

  datatype ModifyRequest = ModifyRequest(orderId: nat, symbol: Symbol, price: nat, quantity: nat, timestamp: nat)

  datatype Fill = Fill(tradeId: nat, buyOrderId: nat, sellOrderId: nat, symbol: Symbol, price: nat, quantity: nat)

  datatype Report = Report(orderId: nat, symbol: Symbol, side: Side, status: Status, price: nat, quantity: nat,
                           remaining: nat, lastQty: nat, lastPx: nat, reason: string, clientId: nat)
}
