/** The order book of one symbol (OrderBook.hpp): bid and ask price levels
    as maps from price to quantity. The source keeps them in ordered maps and
    reads the best bid as the last key and the best ask as the first; here
    they are the maximum and minimum key. A price of 0 stands for "no level". */
module Book {

  /** The largest element of a nonempty finite set of prices. */
  function MaxKey(s: set<real>): (m: real)
    requires s != {}
    ensures m in s && forall k :: k in s ==> k <= m
  {
    MaxExists(s);
    var m :| m in s && forall k :: k in s ==> k <= m;
    m
  }

  /** The smallest element of a nonempty finite set of prices. */
  function MinKey(s: set<real>): (m: real)
    requires s != {}
    ensures m in s && forall k :: k in s ==> m <= k
  {
    MinExists(s);
    var m :| m in s && forall k :: k in s ==> m <= k;
    m
  }

  /** A set with no element is empty. */
  lemma HasElement(s: set<real>)
    ensures s == {} || exists x :: x in s
  {
    if forall x :: x !in s {
      assert s == {};
    }
  }

  lemma {:induction false} MaxExists(s: set<real>)
    requires s != {}
    ensures exists m :: m in s && forall k :: k in s ==> k <= m
    decreases |s|
  {
    HasElement(s);
    var x :| x in s;
    var rest := s - {x};
    if rest == {} {
      forall k | k in s ensures k == x {
        assert k == x || k in rest;
      }
      assert x in s && forall k :: k in s ==> k <= x;
    } else {
      MaxExists(rest);
      var m :| m in rest && forall k :: k in rest ==> k <= m;
      var top := if x <= m then m else x;
      forall k | k in s ensures k <= top {
        if k != x { assert k in rest; }
      }
      assert top in s;
    }
  }

  lemma {:induction false} MinExists(s: set<real>)
    requires s != {}
    ensures exists m :: m in s && forall k :: k in s ==> m <= k
    decreases |s|
  {
    HasElement(s);
    var x :| x in s;
    var rest := s - {x};
    if rest == {} {
      forall k | k in s ensures k == x {
        assert k == x || k in rest;
      }
      assert x in s && forall k :: k in s ==> x <= k;
    } else {
      MinExists(rest);
      var m :| m in rest && forall k :: k in rest ==> m <= k;
      var bottom := if m <= x then m else x;
      forall k | k in s ensures bottom <= k {
        if k != x { assert k in rest; }
      }
      assert bottom in s;
    }
  }

  function Max(a: real, b: real): real {
    if a <= b then b else a
  }

  function Min(a: real, b: real): real {
    if a <= b then a else b
  }

  /** Adding a price to a set raises its maximum to that price at most. */
  lemma MaxKeyInsert(s: set<real>, p: real)
    requires s != {}
    ensures MaxKey(s + {p}) == Max(MaxKey(s), p)
  {
    var m, n := MaxKey(s), MaxKey(s + {p});
    assert n <= Max(m, p) && Max(m, p) in s + {p};
  }

  lemma MinKeyInsert(s: set<real>, p: real)
    requires s != {}
    ensures MinKey(s + {p}) == Min(MinKey(s), p)
  {
    var m, n := MinKey(s), MinKey(s + {p});
    assert Min(m, p) <= n && Min(m, p) in s + {p};
  }

  /** One level update: quantity 0 removes the price level (a no-op when it
      is absent), any other quantity inserts or overwrites it. */
  function ApplyLevel(levels: map<real, real>, price: real, quantity: real): (r: map<real, real>)
    ensures quantity == 0.0 ==> price !in r && r.Keys == levels.Keys - {price}
    ensures quantity != 0.0 ==> price in r && r[price] == quantity && r.Keys == levels.Keys + {price}
    ensures forall p :: p in levels && p != price ==> p in r && r[p] == levels[p]
  {
    if quantity == 0.0 then levels - {price} else levels[price := quantity]
  }

  class OrderBook {
    const symbol: string
    var bids: map<real, real>
    var asks: map<real, real>

    constructor (symbol: string)
      ensures this.symbol == symbol && bids == map[] && asks == map[]
    {
      this.symbol := symbol;
      bids := map[];
      asks := map[];
    }

    /** The highest bid price, or 0 when there are no bids. */
    function GetBestBid(): (r: real)
      reads this
      ensures bids == map[] ==> r == 0.0
      ensures bids != map[] ==> r in bids && forall p :: p in bids ==> p <= r
    {
      if bids == map[] then 0.0 else (assert bids.Keys != {}; MaxKey(bids.Keys))
    }

    /** The lowest ask price, or 0 when there are no asks. */
    function GetBestAsk(): (r: real)
      reads this
      ensures asks == map[] ==> r == 0.0
      ensures asks != map[] ==> r in asks && forall p :: p in asks ==> r <= p
    {
      if asks == map[] then 0.0 else (assert asks.Keys != {}; MinKey(asks.Keys))
    }

    /** The midpoint of the best bid and best ask, or 0 when either is 0. */
    function GetMidPrice(): (r: real)
      reads this
      ensures GetBestBid() == 0.0 || GetBestAsk() == 0.0 ==> r == 0.0
      ensures GetBestBid() != 0.0 && GetBestAsk() != 0.0 ==>
        && r - GetBestBid() == GetBestAsk() - r
        && Min(GetBestBid(), GetBestAsk()) <= r <= Max(GetBestBid(), GetBestAsk())
    {
      var bb := GetBestBid();
      var ba := GetBestAsk();
      if bb == 0.0 || ba == 0.0 then 0.0 else (bb + ba) / 2.0
    }

    method UpdateBid(price: real, quantity: real)
      modifies this
      ensures bids == ApplyLevel(old(bids), price, quantity) && asks == old(asks)
      ensures quantity != 0.0 ==>
        GetBestBid() == if old(bids) == map[] then price else Max(old(GetBestBid()), price)
    {
      if quantity != 0.0 && bids != map[] {
        assert bids.Keys != {};
        MaxKeyInsert(bids.Keys, price);
        assert bids[price := quantity].Keys == bids.Keys + {price};
      }
      if quantity == 0.0 {
        bids := bids - {price};
      } else {
        bids := bids[price := quantity];
      }
    }

    method UpdateAsk(price: real, quantity: real)
      modifies this
      ensures asks == ApplyLevel(old(asks), price, quantity) && bids == old(bids)
      ensures quantity != 0.0 ==>
        GetBestAsk() == if old(asks) == map[] then price else Min(old(GetBestAsk()), price)
    {
      if quantity != 0.0 && asks != map[] {
        assert asks.Keys != {};
        MinKeyInsert(asks.Keys, price);
        assert asks[price := quantity].Keys == asks.Keys + {price};
      }
      if quantity == 0.0 {
        asks := asks - {price};
      } else {
        asks := asks[price := quantity];
      }
    }
  }
}
