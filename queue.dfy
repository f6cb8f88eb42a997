/** The single-producer single-consumer ring buffer (LockFreeQueue.hpp),
    seen sequentially: a fixed array of `capacity` slots, a consumer index
    `head` and a producer index `tail`. One slot always stays free, so the
    queue holds at most capacity - 1 items. Indices advance with a bit mask,
    which equals arithmetic modulo the capacity because the capacity is a
    power of two. */
module Queue {
  import opened Arith

  /** The largest value of the engine's 64-bit size type. */
  const SIZE_MAX: nat := 0xFFFF_FFFF_FFFF_FFFF

  function Pow2(k: nat): (r: nat)
    ensures r >= 1
  {
    if k == 0 then 1 else 2 * Pow2(k - 1)
  }

  ghost predicate IsPowerOfTwo(c: nat) {
    exists k: nat :: Pow2(k) == c
  }

  /** Bitwise AND of two naturals, one binary digit at a time. */
  function BitAnd(x: nat, y: nat): nat
    decreases x
  {
    if x == 0 || y == 0 then 0
    else 2 * BitAnd(x / 2, y / 2) + (if x % 2 == 1 && y % 2 == 1 then 1 else 0)
  }

  /** `c - 1` computed in the 64-bit size type, where 0 - 1 wraps around. */
  function SizeDecrement(c: nat): (r: nat)
    requires c <= SIZE_MAX
    ensures r <= SIZE_MAX
    ensures (r + 1) % (SIZE_MAX + 1) == c
  {
    if c == 0 then SIZE_MAX else c - 1
  }

  /** The compile-time check on the capacity, as the source writes it:
      `(Capacity & (Capacity - 1)) == 0` in the size type. */
  predicate CapacityCheck(c: nat)
    requires c <= SIZE_MAX
  {
    BitAnd(c, SizeDecrement(c)) == 0
  }

  /** The check as intended: a nonzero capacity that passes the mask test. */
  predicate ValidCapacity(c: nat)
    requires c <= SIZE_MAX
  {
    c != 0 && CapacityCheck(c)
  }

  /** Dropping the lowest binary digit: x mod 2p is twice (x/2 mod p) plus x mod 2. */
  lemma ModDouble(x: nat, p: nat, twoP: nat)
    requires p >= 1 && twoP == 2 * p
    ensures x % twoP == 2 * ((x / 2) % p) + x % 2
  {
    var q, r := x / 2, x % 2;
    var a, b := q / p, q % p;
    assert q == p * a + b;
    assert x == twoP * a + (2 * b + r) by {
      assert x == 2 * q + r;
    }
    ModOfSplit(x, twoP, a, 2 * b + r);
  }

  lemma BitAndOddMask(x: nat, m: nat)
    requires x > 0 && m % 2 == 1
    ensures BitAnd(x, m) == 2 * BitAnd(x / 2, m / 2) + x % 2
  {
  }

  /** Masking with 2^k - 1 is reduction modulo 2^k. */
  lemma {:induction false} MaskIsMod(x: nat, k: nat)
    ensures BitAnd(x, Pow2(k) - 1) == x % Pow2(k)
    decreases k
  {
    var twoP := Pow2(k);
    if k == 0 {
      assert twoP == 1;
    } else if x == 0 {
      assert BitAnd(x, twoP - 1) == 0;
    } else {
      var p := Pow2(k - 1);
      assert twoP == 2 * p;
      var m := twoP - 1;
      assert m % 2 == 1 && m / 2 == p - 1;
      BitAndOddMask(x, m);
      MaskIsMod(x / 2, k - 1);
      ModDouble(x, p, twoP);
    }
  }

  lemma {:induction false} BitAndSelf(x: nat)
    ensures BitAnd(x, x) == x
    decreases x
  {
    if x > 0 {
      BitAndSelf(x / 2);
    }
  }

  /** A positive number that passes the mask test is a power of two. */
  lemma {:induction false} MaskTestImpliesPowerOfTwo(c: nat)
    requires c >= 1
    ensures BitAnd(c, c - 1) == 0 ==> IsPowerOfTwo(c)
    decreases c
  {
    if c == 1 {
      assert Pow2(0) == c;
    } else if c % 2 == 0 {
      assert (c - 1) % 2 == 1 && (c - 1) / 2 == c / 2 - 1;
      assert BitAnd(c, c - 1) == 2 * BitAnd(c / 2, c / 2 - 1);
      MaskTestImpliesPowerOfTwo(c / 2);
      if BitAnd(c / 2, c / 2 - 1) == 0 {
        var k: nat :| Pow2(k) == c / 2;
        assert Pow2(k + 1) == c;
      }
    } else {
      assert (c - 1) / 2 == c / 2;
      assert BitAnd(c, c - 1) == 2 * BitAnd(c / 2, c / 2);
      BitAndSelf(c / 2);
    }
  }

  lemma PowerOfTwoPassesMaskTest(k: nat)
    ensures BitAnd(Pow2(k), Pow2(k) - 1) == 0
  {
    MaskIsMod(Pow2(k), k);
    ModOfSplit(Pow2(k), Pow2(k), 1, 0);
  }

  /** The intended check accepts exactly the powers of two. */
  lemma ValidCapacityIsPowerOfTwo(c: nat)
    requires c <= SIZE_MAX
    ensures ValidCapacity(c) <==> IsPowerOfTwo(c)
  {
    if c != 0 {
      assert SizeDecrement(c) == c - 1;
      MaskTestImpliesPowerOfTwo(c);
      if IsPowerOfTwo(c) {
        var k: nat :| Pow2(k) == c;
        PowerOfTwoPassesMaskTest(k);
      }
    }
  }

  /** As written, the compile-time check also admits a capacity of 0, which is
      not a power of two: 0 - 1 wraps to SIZE_MAX and 0 & SIZE_MAX is 0. */
  lemma CapacityCheckAdmitsZero()
    ensures CapacityCheck(0) && !IsPowerOfTwo(0)
  {
    assert SizeDecrement(0) == SIZE_MAX;
  }

  lemma WrapNext(i: nat, c: nat)
    requires i < c
    ensures (i + 1) % c == if i + 1 == c then 0 else i + 1
  {
    if i + 1 == c {
      ModOfSplit(i + 1, c, 1, 0);
    } else {
      ModOfSplit(i + 1, c, 0, i + 1);
    }
  }

  /** The slots of a circular buffer from index h up to (excluding) index t. */
  ghost function Window<T>(buf: seq<T>, h: nat, t: nat): seq<T>
    requires h < |buf| && t < |buf|
  {
    if h <= t then buf[h..t] else buf[h..] + buf[..t]
  }

  function Succ(i: nat, c: nat): nat {
    if i + 1 == c then 0 else i + 1
  }

  lemma WindowSize<T>(buf: seq<T>, h: nat, t: nat)
    requires h < |buf| && t < |buf|
    ensures |Window(buf, h, t)| == (t - h) % |buf|
    ensures |Window(buf, h, t)| == if h <= t then t - h else t + |buf| - h
  {
    if h <= t {
      ModOfSplit(t - h, |buf|, 0, t - h);
    } else {
      ModOfSplit(t - h, |buf|, -1, t - h + |buf|);
    }
  }

  /** Writing x at the tail and advancing the tail appends x to the window. */
  lemma WindowPush<T>(buf: seq<T>, h: nat, t: nat, x: T)
    requires h < |buf| && t < |buf| && Succ(t, |buf|) != h
    ensures Window(buf[t := x], h, Succ(t, |buf|)) == Window(buf, h, t) + [x]
  {
    var after := buf[t := x];
    if h <= t {
      if t + 1 < |buf| {
        assert after[h..t + 1] == buf[h..t] + [x];
      } else {
        assert after[h..] + after[..0] == buf[h..t] + [x];
      }
    } else {
      assert after[h..] == buf[h..];
      assert after[..t + 1] == buf[..t] + [x];
    }
  }

  /** Advancing the head past a nonempty window drops its first element. */
  lemma WindowPop<T>(buf: seq<T>, h: nat, t: nat)
    requires h < |buf| && t < |buf| && h != t
    ensures Window(buf, h, t) != [] && Window(buf, h, t)[0] == buf[h]
    ensures Window(buf, Succ(h, |buf|), t) == Window(buf, h, t)[1..]
  {
    if h > t && h + 1 == |buf| {
      assert Window(buf, 0, t) == buf[..t];
    }
  }

  class LockFreeQueue<T(0)> {
    const capacity: nat
    ghost const log: nat
    const buffer: array<T>
    var head: nat
    var tail: nat

    ghost predicate Valid()
      reads this
    {
      && Pow2(log) == capacity
      && buffer.Length == capacity
      && head < capacity
      && tail < capacity
    }

    /** The items in the queue, oldest first: the slots from head up to tail,
        wrapping around the end of the buffer. */
    ghost function Contents(): seq<T>
      reads this, buffer
      requires Valid()
    {
      Window(buffer[..], head, tail)
    }

    /** The source's `(i + 1) & (Capacity - 1)` for an index below the capacity. */
    function NextIndex(i: nat): (r: nat)
      reads this
      requires Valid() && i < capacity
      ensures r == (i + 1) % capacity
      ensures r == Succ(i, capacity)
    {
      MaskIsMod(i + 1, log);
      WrapNext(i, capacity);
      BitAnd(i + 1, capacity - 1)
    }

    /** The queue's length is the distance from head to tail modulo the
        capacity, so it never reaches the capacity. */
    lemma ContentsSize()
      requires Valid()
      ensures |Contents()| == (tail - head) % capacity
      ensures |Contents()| < capacity
    {
      WindowSize(buffer[..], head, tail);
    }

    constructor (capacity: nat)
      requires IsPowerOfTwo(capacity)
      ensures Valid() && fresh(buffer)
      ensures this.capacity == capacity && head == 0 && tail == 0
      ensures Contents() == []
    {
      this.capacity := capacity;
      ghost var k: nat :| Pow2(k) == capacity;
      log := k;
      buffer := new T[capacity];
      head, tail := 0, 0;
    }

    method Push(item: T) returns (ok: bool)
      requires Valid()
      modifies this, buffer
      ensures Valid()
      ensures ok <==> (old(tail) + 1) % capacity != old(head)
      ensures ok <==> |old(Contents())| < capacity - 1
      ensures Contents() == if ok then old(Contents()) + [item] else old(Contents())
      ensures head == old(head)
      ensures tail == if ok then (old(tail) + 1) % capacity else old(tail)
      ensures ok ==> buffer[old(tail)] == item
      ensures forall i :: 0 <= i < capacity && (i != old(tail) || !ok) ==> buffer[i] == old(buffer[i])
    {
      WindowSize(buffer[..], head, tail);
      var currentTail := tail;
      var nextTail := NextIndex(currentTail);
      var currentHead := head;
      if nextTail == currentHead {
        return false;
      }
      WindowPush(buffer[..], currentHead, currentTail, item);
      buffer[currentTail] := item;
      tail := nextTail;
      ok := true;
    }

    /** Pops into the caller's variable, whose value is `current`; the variable
        keeps that value when the queue is empty. */
    method Pop(current: T) returns (ok: bool, item: T)
      requires Valid()
      modifies this
      ensures Valid()
      ensures ok <==> old(head) != old(tail)
      ensures ok <==> old(Contents()) != []
      ensures ok ==> item == old(buffer[head]) && item == old(Contents())[0]
      ensures !ok ==> item == current
      ensures Contents() == if ok then old(Contents())[1..] else old(Contents())
      ensures head == if ok then (old(head) + 1) % capacity else old(head)
      ensures tail == old(tail)
    {
      WindowSize(buffer[..], head, tail);
      var currentHead := head;
      var currentTail := tail;
      if currentHead == currentTail {
        return false, current;
      }
      WindowPop(buffer[..], currentHead, currentTail);
      item := buffer[currentHead];
      var nextHead := NextIndex(currentHead);
      head := nextHead;
      ok := true;
    }

    function IsEmpty(): (r: bool)
      reads this, buffer
      requires Valid()
      ensures r <==> head == tail
      ensures r <==> Contents() == []
    {
      WindowSize(buffer[..], head, tail);
      head == tail
    }
  }
}
