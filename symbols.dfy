/** Symbol interning (SymbolManager.hpp): each distinct symbol string gets a
    dense integer id, 0, 1, 2, ... in order of first registration. The two
    maps, string to id and id to string, are kept mutually inverse. */
module Symbols {

  const UNKNOWN: string := "UNKNOWN"

  class SymbolManager {
    var nextId: int
    var symbolToId: map<string, int>
    var idToSymbol: seq<string>

    ghost predicate Valid()
      reads this
    {
      && nextId == |idToSymbol|
      && (forall s :: s in symbolToId ==> 0 <= symbolToId[s] < |idToSymbol| && idToSymbol[symbolToId[s]] == s)
      && (forall i :: 0 <= i < |idToSymbol| ==> idToSymbol[i] in symbolToId && symbolToId[idToSymbol[i]] == i)
    }

    constructor ()
      ensures Valid()
      ensures nextId == 0 && symbolToId == map[] && idToSymbol == []
    {
      nextId := 0;
      symbolToId := map[];
      idToSymbol := [];
    }

    /** Returns the id of `symbol`, registering it under the next free id if
        it is new. */
    method GetId(symbol: string) returns (id: int)
      requires Valid()
      modifies this
      ensures Valid()
      ensures 0 <= id < |idToSymbol| && idToSymbol[id] == symbol
      ensures symbol in old(symbolToId) ==>
        && id == old(symbolToId)[symbol]
        && nextId == old(nextId) && symbolToId == old(symbolToId) && idToSymbol == old(idToSymbol)
      ensures symbol !in old(symbolToId) ==>
        && id == old(nextId)
        && nextId == old(nextId) + 1
        && symbolToId == old(symbolToId)[symbol := id]
        && idToSymbol == old(idToSymbol) + [symbol]
    {
      if symbol in symbolToId {
        return symbolToId[symbol];
      }
      id := nextId;
      nextId := nextId + 1;
      symbolToId := symbolToId[symbol := id];
      idToSymbol := idToSymbol + [symbol];
    }

    /** The symbol registered under `id`, or "UNKNOWN" for an id that was never
        handed out. */
    function GetSymbol(id: int): (r: string)
      reads this
      requires Valid()
      ensures 0 <= id < nextId ==> r == idToSymbol[id] && r in symbolToId && symbolToId[r] == id
      ensures !(0 <= id < nextId) ==> r == UNKNOWN
    {
      if 0 <= id < |idToSymbol| then idToSymbol[id] else UNKNOWN
    }

    /** Distinct registered symbols have distinct ids. */
    lemma DistinctSymbolsHaveDistinctIds(a: string, b: string)
      requires Valid()
      requires a in symbolToId && b in symbolToId && a != b
      ensures symbolToId[a] != symbolToId[b]
    {
      assert idToSymbol[symbolToId[a]] == a;
      assert idToSymbol[symbolToId[b]] == b;
    }
  }

  /** Registering the same symbol twice gives the same id and the second call
      changes nothing; registering two different symbols gives two ids. */
  method RegisterTwice(m: SymbolManager, a: string, b: string) returns (ida: int, idb: int, again: int)
    requires m.Valid()
    modifies m
    ensures m.Valid()
    ensures again == ida
    ensures a != b <==> ida != idb
    ensures m.GetSymbol(ida) == a && m.GetSymbol(idb) == b
  {
    ida := m.GetId(a);
    idb := m.GetId(b);
    again := m.GetId(a);
  }
}
