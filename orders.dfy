/** The order manager (OrderManager.hpp). Orders live in the slots of an
    object pool of 100000 orders; `orders` maps each order id to its slot,
    as the source's id-to-pointer map does. Ids are handed out as 1, 2, 3, ...
    and execution reports drive each order's state. */
module Orders {
  import opened Wrappers
  import opened Types
  import Pool

  /** The number of orders the manager's pool pre-allocates. */
  const POOL_SIZE: nat := 100000

  datatype Order = Order(
    orderId: int,
    symbolId: int,
    side: Side,
    price: real,
    quantity: real,
    filledQuantity: real,
    state: OrderState)

  /** A fresh order: nothing filled yet, in state New. */
  function NewOrder(id: int, symbolId: int, side: Side, price: real, quantity: real): (o: Order)
    ensures o.orderId == id && o.symbolId == symbolId && o.side == side
    ensures o.price == price && o.quantity == quantity
    ensures o.filledQuantity == 0.0 && o.state == OrderState.New
  {
    Order(id, symbolId, side, price, quantity, 0.0, OrderState.New)
  }

  /** The fields fixed when the order is created. */
  predicate SameIdentity(a: Order, b: Order) {
    && a.orderId == b.orderId && a.symbolId == b.symbolId && a.side == b.side
    && a.price == b.price && a.quantity == b.quantity
  }

  /** A fill of `fillQty`: the filled quantity grows by it, and the order
      becomes Filled once the filled quantity reaches the order quantity. */
  function ApplyFill(o: Order, fillQty: real): (r: Order)
    ensures SameIdentity(o, r)
    ensures r.filledQuantity == o.filledQuantity + fillQty
    ensures r.filledQuantity >= o.quantity ==> r.state == OrderState.Filled
    ensures r.filledQuantity < o.quantity ==> r.state == o.state
  {
    var filled := o.filledQuantity + fillQty;
    if filled >= o.quantity then o.(filledQuantity := filled, state := OrderState.Filled)
    else o.(filledQuantity := filled)
  }

  /** The effect of one execution report on the order it names. */
  function ApplyReport(o: Order, report: ExecutionReport): (r: Order)
    ensures SameIdentity(o, r)
    ensures report.execType == ExecType.New ==> r == o.(state := OrderState.New)
    ensures report.execType in {ExecType.PartialFill, ExecType.Fill} ==>
      r == o.(filledQuantity := report.cumQty, state := report.orderState)
    ensures report.execType == ExecType.Canceled ==> r == o.(state := OrderState.Canceled)
    ensures report.execType == ExecType.Rejected ==> r == o.(state := OrderState.Rejected)
    ensures report.execType in {ExecType.PendingCancel, ExecType.PendingNew} ==> r == o
  {
    match report.execType
    case New => o.(state := OrderState.New)
    case PartialFill => o.(filledQuantity := report.cumQty, state := report.orderState)
    case Fill => o.(filledQuantity := report.cumQty, state := report.orderState)
    case Canceled => o.(state := OrderState.Canceled)
    case Rejected => o.(state := OrderState.Rejected)
    case PendingCancel => o
    case PendingNew => o
  }

  /** A duplicated execution report is harmless: applying it a second time
      changes nothing, because every report sets absolute values (cumulative
      quantity, target state). */
  lemma ReportIsIdempotent(o: Order, report: ExecutionReport)
    ensures ApplyReport(ApplyReport(o, report), report) == ApplyReport(o, report)
  {
  }

  /** A duplicated fill, in contrast, is counted twice. */
  lemma FillIsNotIdempotent(o: Order, fillQty: real)
    requires fillQty != 0.0
    ensures ApplyFill(ApplyFill(o, fillQty), fillQty).filledQuantity != ApplyFill(o, fillQty).filledQuantity
  {
  }

  /** The orders a slot map refers to, read from the pool's slots. */
  ghost function View(orders: map<int, nat>, slots: seq<Order>): map<int, Order> {
    map id | id in orders && orders[id] < |slots| :: slots[orders[id]]
  }

  ghost predicate Injective(orders: map<int, nat>) {
    forall a, b :: a in orders && b in orders && a != b ==> orders[a] != orders[b]
  }

  /** Overwriting the slot of one order changes only that order. */
  lemma ViewWrite(orders: map<int, nat>, slots: seq<Order>, id: int, o: Order)
    requires Injective(orders) && id in orders && orders[id] < |slots|
    ensures View(orders, slots[orders[id] := o]) == View(orders, slots)[id := o]
  {
    var after := slots[orders[id] := o];
    forall k | k in orders && orders[k] < |slots| && k != id
      ensures after[orders[k]] == slots[orders[k]]
    {
      assert orders[k] != orders[id];
    }
  }

  /** Filling a slot no order uses and mapping a new id to it adds one order. */
  lemma ViewInsert(orders: map<int, nat>, slots: seq<Order>, id: int, slot: nat, o: Order)
    requires id !in orders && slot < |slots|
    requires forall k :: k in orders ==> orders[k] != slot
    ensures View(orders[id := slot], slots[slot := o]) == View(orders, slots)[id := o]
  {
    var after, m := slots[slot := o], orders[id := slot];
    forall k | k in orders && orders[k] < |slots|
      ensures m[k] == orders[k] && after[m[k]] == slots[orders[k]]
    {
      assert k != id && orders[k] != slot;
    }
    assert View(m, after).Keys == View(orders, slots).Keys + {id};
  }

  class OrderManager {
    const pool: Pool.ObjectPool<Order>
    var orders: map<int, nat>
    var nextOrderId: int

    ghost predicate Valid()
      reads this, pool, pool.slots
    {
      && pool.Valid()
      && pool.slots.Length == POOL_SIZE
      && nextOrderId >= 1
      && (forall id :: id in orders <==> 1 <= id < nextOrderId)
      && (forall id :: id in orders ==> orders[id] in pool.inUse)
      && (forall id :: id in orders ==> pool.slots[orders[id]].orderId == id)
      && Injective(orders)
      && |pool.freeList| + (nextOrderId - 1) == POOL_SIZE
    }

    /** The orders being tracked, by id. */
    ghost function Orders(): map<int, Order>
      reads this, pool, pool.slots
      requires Valid()
    {
      View(orders, pool.slots[..])
    }

    constructor ()
      ensures Valid() && fresh(pool) && fresh(pool.slots)
      ensures nextOrderId == 1 && Orders() == map[]
    {
      pool := new Pool.ObjectPool<Order>(POOL_SIZE);
      orders := map[];
      nextOrderId := 1;
    }

    /** Creates an order in a pool slot and returns its id, or -1 (changing
        nothing) once all POOL_SIZE slots have been handed out. */
    method CreateOrder(symbolId: int, side: Side, price: real, quantity: real) returns (id: int)
      requires Valid()
      modifies this, pool, pool.slots
      ensures Valid()
      ensures id == -1 <==> old(nextOrderId) == POOL_SIZE + 1
      ensures id == -1 ==> nextOrderId == old(nextOrderId) && Orders() == old(Orders())
      ensures id != -1 ==>
        && id == old(nextOrderId)
        && nextOrderId == id + 1
        && Orders() == old(Orders())[id := NewOrder(id, symbolId, side, price, quantity)]
      ensures id != -1 ==> forall k :: k in old(Orders()) ==> k < id
    {
      ghost var before := pool.slots[..];
      var order := pool.Acquire(NewOrder(nextOrderId, symbolId, side, price, quantity));
      if order == None {
        return -1;
      }
      ViewInsert(orders, before, nextOrderId, order.value, NewOrder(nextOrderId, symbolId, side, price, quantity));
      id := nextOrderId;
      nextOrderId := nextOrderId + 1;
      orders := orders[id := order.value];
    }

    /** Sets the state of a known order; an unknown id changes nothing. */
    method UpdateOrderState(orderId: int, newState: OrderState)
      requires Valid()
      modifies pool.slots
      ensures Valid()
      ensures Orders() ==
        if orderId in old(Orders()) then old(Orders())[orderId := old(Orders())[orderId].(state := newState)]
        else old(Orders())
    {
      if orderId in orders {
        var slot := orders[orderId];
        ViewWrite(orders, pool.slots[..], orderId, pool.slots[slot].(state := newState));
        pool.slots[slot] := pool.slots[slot].(state := newState);
      }
    }

    /** The order with the given id, or None (the source's null pointer). */
    function GetOrder(orderId: int): (r: Option<Order>)
      reads this, pool, pool.slots
      requires Valid()
      ensures r.Some? <==> orderId in Orders()
      ensures r.Some? ==> r.value == Orders()[orderId] && r.value.orderId == orderId
    {
      if orderId in orders then Some(pool.slots[orders[orderId]]) else None
    }

    /** Records a fill on a known order; an unknown id changes nothing. The
        fill price is only logged. */
    method OnFill(orderId: int, fillQty: real, fillPrice: real)
      requires Valid()
      modifies pool.slots
      ensures Valid()
      ensures Orders() ==
        if orderId in old(Orders()) then old(Orders())[orderId := ApplyFill(old(Orders())[orderId], fillQty)]
        else old(Orders())
    {
      if orderId in orders {
        var slot := orders[orderId];
        var order := pool.slots[slot];
        var filled := order.filledQuantity + fillQty;
        ViewWrite(orders, pool.slots[..], orderId, ApplyFill(order, fillQty));
        if filled >= order.quantity {
          pool.slots[slot] := order.(filledQuantity := filled, state := OrderState.Filled);
        } else {
          pool.slots[slot] := order.(filledQuantity := filled);
        }
      }
    }

    /** Applies an execution report to the order it names; a report for an
        unknown order id changes nothing. */
    method OnExecutionReport(report: ExecutionReport)
      requires Valid()
      modifies pool.slots
      ensures Valid()
      ensures Orders() ==
        if report.orderId in old(Orders())
        then old(Orders())[report.orderId := ApplyReport(old(Orders())[report.orderId], report)]
        else old(Orders())
    {
      if report.orderId !in orders {
        return;
      }
      var slot := orders[report.orderId];
      var order := pool.slots[slot];
      ViewWrite(orders, pool.slots[..], report.orderId, ApplyReport(order, report));
      match report.execType {
        case New =>
          pool.slots[slot] := order.(state := OrderState.New);
        case PartialFill =>
          pool.slots[slot] := order.(filledQuantity := report.cumQty, state := report.orderState);
        case Fill =>
          pool.slots[slot] := order.(filledQuantity := report.cumQty, state := report.orderState);
        case Canceled =>
          pool.slots[slot] := order.(state := OrderState.Canceled);
        case Rejected =>
          pool.slots[slot] := order.(state := OrderState.Rejected);
        case PendingCancel =>
        case PendingNew =>
      }
    }
  }
}
