/** The pre-trade risk check (RiskManager.hpp): an order passes when its
    size is within the order-size limit and the position it would lead to is
    within the position limit in absolute value. Fills move the position. */
module Risk {
  import opened Types

  function Abs(x: real): (r: real)
    ensures r >= 0.0 && (r == x || r == -x)
  {
    if x < 0.0 then -x else x
  }

  /** The position after trading `quantity` on `side`. */
  function Projected(position: real, side: Side, quantity: real): real {
    match side
    case Buy => position + quantity
    case Sell => position - quantity
  }

  function Opposite(side: Side): Side {
    match side
    case Buy => Sell
    case Sell => Buy
  }

  /** Trading the same quantity back on the other side restores the position. */
  lemma OppositeTradeRestoresPosition(position: real, side: Side, quantity: real)
    ensures Projected(Projected(position, side, quantity), Opposite(side), quantity) == position
  {
  }

  class RiskManager {
    const maxOrderSize: real
    const maxPosition: real
    var currentPosition: real

    constructor ()
      ensures maxOrderSize == 10.0 && maxPosition == 100.0 && currentPosition == 0.0
    {
      maxOrderSize := 10.0;
      maxPosition := 100.0;
      currentPosition := 0.0;
    }

    /** Whether an order may be sent. The symbol and the price take no part
        in the decision. */
    function CheckOrder(symbol: string, side: Side, price: real, quantity: real): (ok: bool)
      reads this
      ensures quantity > maxOrderSize ==> !ok
      ensures Abs(Projected(currentPosition, side, quantity)) > maxPosition ==> !ok
      ensures ok <==> quantity <= maxOrderSize && Abs(Projected(currentPosition, side, quantity)) <= maxPosition
    {
      if quantity > maxOrderSize then false
      else
        var projectedPosition := if side == Buy then currentPosition + quantity else currentPosition - quantity;
        if Abs(projectedPosition) > maxPosition then false
        else true
    }

    /** Moves the position by a fill. An order that passed the check, once
        filled, leaves the position within the limit. */
    method UpdatePosition(side: Side, quantity: real)
      modifies this
      ensures currentPosition == Projected(old(currentPosition), side, quantity)
      ensures forall symbol, price :: old(CheckOrder(symbol, side, price, quantity)) ==> Abs(currentPosition) <= maxPosition
    {
      if side == Buy {
        currentPosition := currentPosition + quantity;
      } else {
        currentPosition := currentPosition - quantity;
      }
    }
  }
}
