/** The enumerations and plain records shared by the execution engine's
    components (Types.hpp, ExecutionReport.hpp, MarketDataAdapter.hpp). */
module Types {

  datatype OrderState = New | PendingNew | Filled | Canceled | Rejected

  datatype OrderType = Limit | Market | IOC | FOK

  datatype Side = Buy | Sell

  datatype ExecType = New | PartialFill | Fill | Canceled | Rejected | PendingCancel | PendingNew

  /** A FIX execution report (message type 8); prices and quantities are reals. */
  datatype ExecutionReport = ExecutionReport(
    orderId: int,
    clientOrderId: string,
    execId: string,
    symbol: string,
    side: Side,
    lastQty: real,
    lastPrice: real,
    leavesQty: real,
    cumQty: real,
    avgPrice: real,
    execType: ExecType,
    orderState: OrderState,
    text: string)

  /** The top of the book for one symbol, as delivered by a market data adapter. */
  datatype BookTicker = BookTicker(
    symbol: string,
    bestBidPrice: real,
    bestBidQty: real,
    bestAskPrice: real,
    bestAskQty: real,
    updateId: int)
}
