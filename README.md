# TradingEngine execution system — a Dafny model

This project models the core of the TradingEngine execution system and proves properties of the model:

- the bounded single-producer/single-consumer ring queue that carries book tickers from the market-data thread to the strategy;
- the object pool that pre-allocates orders;
- the symbol interning table;
- the per-symbol order book with its best bid, best ask and mid price;
- the order manager, which creates orders in pool slots and applies fills and execution reports;
- the pre-trade risk check and position;
- the latency histogram with its percentile report;
- the CSV market-data replay, with its line splitting and parsing;
- the Python log analyser: profit extraction, running PnL, ASCII chart bars and the exit branches of its main function.

Each module follows one source file:

| Module | File | Source |
|---|---|---|
| `Queue` | `queue.dfy` | `LockFreeQueue.hpp` |
| `Pool` | `pool.dfy` | `ObjectPool.hpp` |
| `Symbols` | `symbols.dfy` | `SymbolManager.hpp` |
| `Book` | `book.dfy` | `OrderBook.hpp` |
| `Orders` | `orders.dfy` | `OrderManager.hpp` |
| `Risk` | `risk.dfy` | `RiskManager.hpp` |
| `Latency` | `latency.dfy` | `LatencyMonitor.hpp` |
| `Replay` | `replay.dfy` | `MarketDataReplay.hpp` |
| `PerfAnalysis` | `perf.dfy` | `analyze_performance.py` |

The profit matching in `PerfAnalysis` is written for any marker string; `ParseLog` and `Analyze` use the script's own marker, `MARKER`.

`Types` holds the shared enums and records. `Wrappers` holds Option and Result. `Arith` holds a few integer division facts.

Objects whose fields the source updates in place are Dafny classes:

- **LockFreeQueue:** the buffer is an `array`. The head and tail indices are fields. A ghost `Contents()` gives the queued items in FIFO order.
- **ObjectPool:** the slots are an `array`. The free list is a `seq`, and a ghost set records the slots in use.
- **SymbolManager, OrderBook, RiskManager:** these hold their maps and fields directly.
- **OrderManager:** it owns an `ObjectPool<Order>` of 100000 slots and maps each id to its slot. The ghost `Orders()` reads the orders back through that map.
- **LatencyMonitor:** it keeps 10000 buckets of 100 ns in an `array<nat>`, plus the count, minimum and maximum. A ghost log of the samples lets the invariant say what the buckets count.

The loops in the source are Dafny loops with invariants:

- the free-list fill in the pool constructor;
- the bucket scan and the grouping in the latency report;
- the `getline` segment loop of `parseLine`, written as a loop over the characters of the line (`Replay.Split`) and proved equal to the segment function `Replay.Fields`, and the line loop of the replay;
- the line loop of the log parser and the chart loop.

Each loop is proved against a function that specifies it, and the lemmas are stated about those functions.

Calls into code the model cannot see are parameters:

- `std::stod` and Python's `float()` are a partial function `string -> Option<real>`;
- a file is an `Option<seq<string>>` of lines (`None` when it cannot be opened), or a map from file name to lines;
- the replay callback is a flag saying whether one is set, together with the sequence of tickers it receives.

## Model

| member | source | states |
|---|---|---|
| Queue.CapacityCheckAdmitsZero | ExecutionSystem/include/LockFreeQueue.hpp:16-17 | the compile-time capacity test, with `Capacity - 1` wrapping as a `size_t`, passes for 0, which is not a power of two |
| Queue.SizeDecrement | ExecutionSystem/include/LockFreeQueue.hpp:16 | `Capacity - 1` in the size type: stays within `size_t` and is one less modulo 2^64 |
| Queue.CapacityCheck | ExecutionSystem/include/LockFreeQueue.hpp:16 | (specification) the static_assert as written: `Capacity & (Capacity - 1)` is zero, with the wrapped decrement |
| Queue.ValidCapacityIsPowerOfTwo | ExecutionSystem/include/LockFreeQueue.hpp:16-17 | the capacity test with zero excluded holds exactly for the powers of two |
| Queue.MaskTestImpliesPowerOfTwo | ExecutionSystem/include/LockFreeQueue.hpp:16-17 | a positive capacity with `c & (c-1) == 0` is a power of two |
| Queue.PowerOfTwoPassesMaskTest | ExecutionSystem/include/LockFreeQueue.hpp:16-17 | every power of two passes the mask test |
| Queue.MaskIsMod | ExecutionSystem/include/LockFreeQueue.hpp:32 | masking with `Capacity - 1` is reduction modulo the capacity when the capacity is a power of two |
| Queue.LockFreeQueue.NextIndex | ExecutionSystem/include/LockFreeQueue.hpp:32 | the masked successor of an index is `(i + 1) % capacity`, so indices stay within the buffer |
| Queue.LockFreeQueue.ContentsSize | ExecutionSystem/include/LockFreeQueue.hpp:40-42 | the queue holds at most capacity - 1 items, since one slot always stays free |
| Queue.WindowPush | ExecutionSystem/include/LockFreeQueue.hpp:46-53 | writing the tail slot and advancing the tail appends that item to the queued items |
| Queue.WindowPop | ExecutionSystem/include/LockFreeQueue.hpp:78-88 | advancing the head removes exactly the first queued item |
| Queue.LockFreeQueue.constructor | ExecutionSystem/include/LockFreeQueue.hpp:19 | a new queue is empty (head == tail == 0) over a buffer of `Capacity` slots |
| Queue.LockFreeQueue.Push | ExecutionSystem/include/LockFreeQueue.hpp:23-55 | push fails, changing nothing, exactly when the next tail would meet the head, i.e. when capacity - 1 items are queued; otherwise it appends the item and touches only the tail slot and the tail |
| Queue.LockFreeQueue.Pop | ExecutionSystem/include/LockFreeQueue.hpp:60-90 | pop fails exactly when the queue is empty; otherwise it returns the oldest item and removes it (FIFO) |
| Queue.LockFreeQueue.IsEmpty | ExecutionSystem/include/LockFreeQueue.hpp:93-96 | empty exactly when head == tail, exactly when no item is queued |
| Pool.Range | ExecutionSystem/include/ObjectPool.hpp:22-24 | the indices 0 .. n-1 in order |
| Pool.ObjectPool.constructor | ExecutionSystem/include/ObjectPool.hpp:14-25 | a pool of `size` slots starts with every slot free and the free list in index order |
| Pool.ObjectPool.Acquire | ExecutionSystem/include/ObjectPool.hpp:35-51 | fails, changing nothing, exactly when no slot is free; otherwise hands out the last free slot (LIFO), stores the value there and marks the slot in use |
| Pool.ObjectPool.Release | ExecutionSystem/include/ObjectPool.hpp:54-65 | returns a slot in use to the end of the free list, keeping free and in-use slots a partition of all slots |
| Pool.ReleaseThenAcquire | ExecutionSystem/include/ObjectPool.hpp:35-65 | the slot just released is the next one acquired |
| Symbols.SymbolManager.constructor | ExecutionSystem/include/SymbolManager.hpp:44-48 | no symbol is registered and the next id is 0 |
| Symbols.SymbolManager.GetId | ExecutionSystem/include/SymbolManager.hpp:21-32 | a known symbol gets its id back and nothing changes; a new one gets the next id, is added to both maps, and the maps stay inverse to each other |
| Symbols.SymbolManager.GetSymbol | ExecutionSystem/include/SymbolManager.hpp:35-41 | an issued id maps back to the symbol that maps to it; any other id gives "UNKNOWN" |
| Symbols.SymbolManager.DistinctSymbolsHaveDistinctIds | ExecutionSystem/include/SymbolManager.hpp:21-32 | two different registered symbols never share an id |
| Symbols.RegisterTwice | ExecutionSystem/include/SymbolManager.hpp:21-41 | registering a symbol again returns the same id; different symbols get different ids; each id maps back to its symbol |
| Book.MaxKey | ExecutionSystem/include/OrderBook.hpp:44-48 | the last key of the ordered bid map is the largest bid price |
| Book.MinKey | ExecutionSystem/include/OrderBook.hpp:53-57 | the first key of the ordered ask map is the smallest ask price |
| Book.MaxKeyInsert | ExecutionSystem/include/OrderBook.hpp:24-30 | adding a bid level moves the best bid to the larger of the old best and the new price |
| Book.MinKeyInsert | ExecutionSystem/include/OrderBook.hpp:33-39 | adding an ask level moves the best ask to the smaller of the old best and the new price |
| Book.ApplyLevel | ExecutionSystem/include/OrderBook.hpp:24-30 | quantity 0 erases the price level; any other quantity inserts or overwrites it; other levels are unchanged |
| Book.OrderBook.constructor | ExecutionSystem/include/OrderBook.hpp:21 | a new book has its symbol and no levels |
| Book.OrderBook.UpdateBid | ExecutionSystem/include/OrderBook.hpp:24-30 | applies the level update to the bids only; a nonzero quantity makes the best bid the maximum of the old best and the price |
| Book.OrderBook.UpdateAsk | ExecutionSystem/include/OrderBook.hpp:33-39 | applies the level update to the asks only; a nonzero quantity makes the best ask the minimum of the old best and the price |
| Book.OrderBook.GetBestBid | ExecutionSystem/include/OrderBook.hpp:44-48 | 0 when there are no bids; otherwise a bid price no smaller than any other |
| Book.OrderBook.GetBestAsk | ExecutionSystem/include/OrderBook.hpp:53-57 | 0 when there are no asks; otherwise an ask price no larger than any other |
| Book.OrderBook.GetMidPrice | ExecutionSystem/include/OrderBook.hpp:60-66 | 0 when either side is empty; otherwise the point equidistant from best bid and best ask, lying between them |
| Orders.NewOrder | ExecutionSystem/include/OrderManager.hpp:25-27 | a new order carries the given id, symbol, side, price and quantity, with nothing filled and state New |
| Orders.ApplyFill | ExecutionSystem/include/OrderManager.hpp:80-88 | a fill adds to the filled quantity and makes the order Filled once the quantity is reached; the identity fields stay |
| Orders.ApplyReport | ExecutionSystem/include/OrderManager.hpp:94-140 | each execution type sets its state (and the cumulative quantity for partial and full fills); pending types change nothing; the identity fields stay |
| Orders.ReportIsIdempotent | ExecutionSystem/include/OrderManager.hpp:94-140 | applying the same execution report twice has the effect of applying it once |
| Orders.FillIsNotIdempotent | ExecutionSystem/include/OrderManager.hpp:80-82 | a repeated nonzero fill is counted twice |
| Orders.ViewWrite | ExecutionSystem/include/OrderManager.hpp:56-62 | overwriting an order's pool slot changes that order and no other |
| Orders.ViewInsert | ExecutionSystem/include/OrderManager.hpp:39-53 | placing a new order in a free slot and mapping its id there adds exactly that order |
| Orders.OrderManager.constructor | ExecutionSystem/include/OrderManager.hpp:35 | no orders, the next id is 1, and a fresh pool of 100000 slots |
| Orders.OrderManager.CreateOrder | ExecutionSystem/include/OrderManager.hpp:39-53 | returns -1 and changes nothing exactly when the pool is exhausted; otherwise the next id, which exceeds every existing id, for a new order added to the tracked orders |
| Orders.OrderManager.UpdateOrderState | ExecutionSystem/include/OrderManager.hpp:56-62 | sets the state of a known order only; an unknown id changes nothing |
| Orders.OrderManager.GetOrder | ExecutionSystem/include/OrderManager.hpp:66-73 | the order with that id when it is tracked, otherwise None |
| Orders.OrderManager.OnFill | ExecutionSystem/include/OrderManager.hpp:76-90 | applies the fill to the named order only; an unknown id changes nothing |
| Orders.OrderManager.OnExecutionReport | ExecutionSystem/include/OrderManager.hpp:94-140 | applies the report to the order it names only; an unknown id changes nothing |
| Risk.Abs | ExecutionSystem/include/RiskManager.hpp:44-48 | the magnitude of the projected position |
| Risk.Projected | ExecutionSystem/include/RiskManager.hpp:37-42 | (specification) the position after the order: a buy adds the quantity, a sell subtracts it |
| Risk.OppositeTradeRestoresPosition | ExecutionSystem/include/RiskManager.hpp:61-67 | trading a quantity back on the other side restores the position |
| Risk.RiskManager.constructor | ExecutionSystem/include/RiskManager.hpp:16-17 | the limits are 10 per order and 100 in position, starting flat |
| Risk.RiskManager.CheckOrder | ExecutionSystem/include/RiskManager.hpp:21-56 | an order passes exactly when its quantity is within the order-size limit and the projected position is within the position limit in absolute value |
| Risk.RiskManager.UpdatePosition | ExecutionSystem/include/RiskManager.hpp:61-67 | a buy adds and a sell subtracts the quantity; a passed order, once filled, leaves the position within the limit |
| Latency.BucketOf | ExecutionSystem/include/LatencyMonitor.hpp:53-56 | every sample lands in one of the 10000 buckets |
| Latency.BucketRange | ExecutionSystem/include/LatencyMonitor.hpp:53-56 | a sample below 1 ms lands in the bucket whose 100 ns range contains it; larger samples land in the last bucket |
| Latency.MinFrom | ExecutionSystem/include/LatencyMonitor.hpp:48-49 | the running minimum starts at the largest uint64 and is at most every sample, and is one of them when there is one |
| Latency.MaxFrom | ExecutionSystem/include/LatencyMonitor.hpp:50-51 | the running maximum starts at 0 and is at least every sample, and is one of them when there is one |
| Latency.ExtremesAreSamples | ExecutionSystem/include/LatencyMonitor.hpp:46-51 | once a sample is recorded, the kept minimum and maximum are recorded samples and minimum <= maximum |
| Latency.RecordSnoc | ExecutionSystem/include/LatencyMonitor.hpp:46-58 | recording one more sample keeps the buckets, count, minimum and maximum a summary of all samples |
| Latency.LatencyMonitor.constructor | ExecutionSystem/include/LatencyMonitor.hpp:23-29 | a new monitor has all buckets at 0, count 0, min at the largest uint64 and max 0 |
| Latency.LatencyMonitor.Record | ExecutionSystem/include/LatencyMonitor.hpp:46-58 | counts the sample in its bucket, bumps the count and updates min and max; the state stays a summary of the samples so far |
| Latency.LatencyMonitor.CountInBucket | ExecutionSystem/include/LatencyMonitor.hpp:53-57 | exactly the sample's bucket (the overflow bucket from 1 ms on) grows by one |
| Latency.FirstReaching | ExecutionSystem/include/LatencyMonitor.hpp:79-95 | the first bucket whose cumulative count reaches the target, or past the end when none does |
| Latency.PercentileFor | ExecutionSystem/include/LatencyMonitor.hpp:79-95 | the percentile printed for one target: 0 when no bucket reaches it, else the upper edge of the first bucket that does, a multiple of 100 ns within the histogram |
| Latency.PercentileMonotone | ExecutionSystem/include/LatencyMonitor.hpp:79-95 | a larger target never gives a smaller percentile, and each reachable target gives a positive one |
| Latency.FloorTarget | ExecutionSystem/include/LatencyMonitor.hpp:75-77 | the percentile target as written: the count scaled and truncated toward zero |
| Latency.ClampedTarget | ExecutionSystem/include/LatencyMonitor.hpp:75-77 | the corrected target: the truncated target, raised to 1 when it is 0 |
| Latency.ClampedTargetBounds | ExecutionSystem/include/LatencyMonitor.hpp:75-77 | for a nonempty monitor the corrected targets lie in 1 .. count and are ordered P50 <= P99 <= P99.9 |
| Latency.ClampOnlyAffectsSingleSample | ExecutionSystem/include/LatencyMonitor.hpp:75-77 | with two samples or more the corrected targets equal the source's |
| Latency.PositiveTargetEndsOccupiedBucket | ExecutionSystem/include/LatencyMonitor.hpp:79-95 | a reachable target of at least 1 reports the upper edge of a bucket that holds a sample |
| Latency.FloorTargetBounds | ExecutionSystem/include/LatencyMonitor.hpp:75-77 | the source's truncated targets are at most the count and ordered P50 <= P99 <= P99.9 |
| Latency.FloorTargetMisreportsSingleSample | ExecutionSystem/include/LatencyMonitor.hpp:75-95 | with one sample every source target is 0 and every percentile is 100 ns, and for a sample of 100 ns or more bucket 0 is empty |
| Latency.LatencyMonitor.Percentiles | ExecutionSystem/include/LatencyMonitor.hpp:79-95 | the single bucket scan finds for each target the first bucket that reaches it |
| Latency.BarBounds | ExecutionSystem/include/LatencyMonitor.hpp:113-118 | a histogram bar is at most 50 wide, at least 1 exactly when its group is nonempty, and 50 when one group holds every sample |
| Latency.BarFor | ExecutionSystem/include/LatencyMonitor.hpp:116-118 | the bar of a group, `group_count * 50 / count_` raised to 1; zero exactly for an empty group, which is not printed |
| Latency.LatencyMonitor.GroupCount | ExecutionSystem/include/LatencyMonitor.hpp:108-111 | the inner loop totals the ten buckets of one microsecond |
| Latency.LatencyMonitor.Distribution | ExecutionSystem/include/LatencyMonitor.hpp:106-122 | the 20 group totals are the sums of 10 consecutive buckets (one microsecond) each, and each bar, at most 50 wide, is nonzero exactly for a nonempty group |
| Latency.LatencyMonitor.ComputeReport | ExecutionSystem/include/LatencyMonitor.hpp:61-124 | no report when no sample was recorded; otherwise the percentiles of the truncated targets, 0 < P50 <= P99 <= P99.9, with the group totals and bars; from two samples on each percentile is the upper edge of a bucket holding a sample, and a single sample gives 100 ns for all three |
| Latency.LatencyMonitor.CorrectedReport | ExecutionSystem/include/LatencyMonitor.hpp:61-124 | the report with targets of at least one sample: every percentile is the upper edge of a bucket holding a sample, and from two samples on it equals the source's report |
| Latency.LatencyMonitor.ReportFor | ExecutionSystem/include/LatencyMonitor.hpp:79-122 | for ordered targets within the count, the percentiles those targets reach, ordered and positive, with the group totals and bars |
| Replay.FieldsHaveNoComma | ExecutionSystem/include/MarketDataReplay.hpp:81-83 | no field that the comma split produces contains a comma |
| Replay.Fields | ExecutionSystem/include/MarketDataReplay.hpp:81-83 | (specification) the segments `getline(ss, segment, ',')` yields: the text between commas, none for an empty line and no final empty segment after a trailing comma |
| Replay.JoinFields | ExecutionSystem/include/MarketDataReplay.hpp:81-83 | joining the fields with commas, plus the trailing comma `getline` drops, gives back the line |
| Replay.FieldCount | ExecutionSystem/include/MarketDataReplay.hpp:81-83 | a line yields one field more than it has commas, except that an empty line, or a line ending in a comma, yields one fewer |
| Replay.Split | ExecutionSystem/include/MarketDataReplay.hpp:77-83 | the character loop produces exactly the comma fields of the line |
| Replay.ParseFields | ExecutionSystem/include/MarketDataReplay.hpp:85-95 | fewer than 6 fields give a ticker with an empty symbol; otherwise the symbol is field 1 and parsing succeeds exactly when fields 2-5 are numbers; a failure names the first bad field |
| Replay.ParseLine | ExecutionSystem/include/MarketDataReplay.hpp:76-96 | parses the split of the line as above |
| Replay.Body | ExecutionSystem/include/MarketDataReplay.hpp:46-48 | the first line is dropped as a header |
| Replay.RunReplay | ExecutionSystem/include/MarketDataReplay.hpp:36-74 | a file that cannot be opened yields nothing; otherwise every nonempty data line that parses reaches the callback in order, every one that fails is reported, and the count is the number delivered |
| Replay.DeliveredConcat | ExecutionSystem/include/MarketDataReplay.hpp:51-71 | replay runs of lines back to back: the tickers of the first run, then those of the second |
| Replay.Delivered | ExecutionSystem/include/MarketDataReplay.hpp:51-61 | (specification) the tickers the callback receives: those of the nonempty lines that parse, in order |
| Replay.Rejected | ExecutionSystem/include/MarketDataReplay.hpp:56-65 | (specification) the lines reported as parse errors: the nonempty lines that fail to parse, in order |
| Replay.EmptyLineIsSkipped | ExecutionSystem/include/MarketDataReplay.hpp:52-53 | inserting an empty line anywhere changes nothing delivered |
| Replay.ReplayStep | ExecutionSystem/include/MarketDataReplay.hpp:51-66 | one more line adds its ticker when it is nonempty and parses, is rejected when it is nonempty and fails, and otherwise changes nothing |
| Replay.AtMostOneTickerPerLine | ExecutionSystem/include/MarketDataReplay.hpp:51-66 | each data line is delivered or rejected at most once |
| PerfAnalysis.RunLength | ExecutionSystem/analyze_performance.py:13 | the `[\d.]+` token is the longest run of digits and dots at that position |
| PerfAnalysis.FirstMatch | ExecutionSystem/analyze_performance.py:19 | the leftmost position where the marker is followed by a digit or dot |
| PerfAnalysis.Search | ExecutionSystem/analyze_performance.py:13-21 | `re.search` finds a token exactly when some occurrence of the marker is followed by a digit or dot; the token is the maximal run after the leftmost one |
| PerfAnalysis.TokenOfRun | ExecutionSystem/analyze_performance.py:13 | the greedy `[\d.]+` group starting at a digit or dot is nonempty, made only of digits and dots, and not followed by another one |
| PerfAnalysis.SearchFindsLeftmostMatch | ExecutionSystem/analyze_performance.py:19 | no match starts before the one that is found |
| PerfAnalysis.RunningSums | ExecutionSystem/analyze_performance.py:22-23 | one cumulative PnL per trade; the i-th is the sum of the first i+1 profits |
| PerfAnalysis.Profits | ExecutionSystem/analyze_performance.py:17-21 | (specification) the converted profits of the matching lines in file order, or none when `float()` rejects a token |
| PerfAnalysis.RunningSumsMonotone | ExecutionSystem/analyze_performance.py:22-23 | with non-negative profits the cumulative PnL never decreases |
| PerfAnalysis.ScanLog | ExecutionSystem/analyze_performance.py:17-23 | the line loop: the cumulative PnL of the matched profits in order, or, when a token fails to convert, the first such token of the log |
| PerfAnalysis.FirstBadToken | ExecutionSystem/analyze_performance.py:19-21 | (specification) the token of the first matching line whose profit `float()` rejects |
| PerfAnalysis.ProfitsFailExactlyAtBadToken | ExecutionSystem/analyze_performance.py:17-23 | the profits are missing exactly when the log has a token that fails to convert (`FirstBadToken`, the token of the first such line), and that token is one `float()` rejects |
| PerfAnalysis.ParseLog | ExecutionSystem/analyze_performance.py:5-29 | a missing file is reported as such; the first token `float()` rejects raises; otherwise the cumulative PnL of the matched profits, in order |
| PerfAnalysis.ValueErrorPropagates | ExecutionSystem/analyze_performance.py:21 | once one line's token fails to convert, no later lines can rescue the parse, and the failing token stays the same |
| PerfAnalysis.MaxOf | ExecutionSystem/analyze_performance.py:36 | the largest value of the sequence |
| PerfAnalysis.MinOf | ExecutionSystem/analyze_performance.py:37 | the smallest value of the sequence |
| PerfAnalysis.Range | ExecutionSystem/analyze_performance.py:38 | max - min when they differ, else 1.0; always positive |
| PerfAnalysis.BarLengthBounds | ExecutionSystem/analyze_performance.py:40-44 | every bar is 1 .. 11 markers long; the maximum gets 11 when not all values are equal, and all bars are 1 when they are |
| PerfAnalysis.BarLength | ExecutionSystem/analyze_performance.py:43-44 | (specification) the bar length `int((val - min_pnl) / range_pnl * 10) + 1`, the floor being exact as the quotient is not negative |
| PerfAnalysis.BarLengthMonotone | ExecutionSystem/analyze_performance.py:42-44 | a larger PnL never gets a shorter bar |
| PerfAnalysis.ChartBars | ExecutionSystem/analyze_performance.py:31-45 | no bars for an empty sequence; otherwise the chart `Chart`: one bar per value, from the min-max normalisation, within 1 .. 11 and ordered like the values |
| PerfAnalysis.Chart | ExecutionSystem/analyze_performance.py:35-44 | (specification) the chart of a nonempty series: one `BarLength` per value, with the series' own minimum and maximum |
| PerfAnalysis.Analyze | ExecutionSystem/analyze_performance.py:47-60 | usage when no file argument is given; a missing file or no trades give the no-trades outcome; a bad token crashes; otherwise the trade count, the final PnL (the sum of all profits) and the chart of the running totals (`Chart`), every bar within 1 .. 11 |

## Left out

- Atomics and memory orderings of the queue: the model is sequential, with producer and consumer steps interleaved one call at a time.
- The mutex of the order manager and the atomic position of the risk manager: calls are sequential.
- `SymbolManager::instance`: the process-wide singleton is an ordinary object here.
- Printing and formatting: `OrderBook::print`, the text of the latency report, the log messages of the replay and order manager, `setw` and the `:8.4f` formats of the Python script. The values printed are modelled; their text is not.
- `LatencyMonitor::start`/`stop`: reading the clock is I/O; `Record` takes the measured duration.
- `std::stod` and `float()` are parameters. Their acceptance of leading whitespace and trailing text, and their rounding, are not modelled.
- Floating point: prices, quantities, positions and PnL are exact reals, not IEEE doubles.
- Fixed-width integers: the uint64 count, buckets and minimum, the `int` replay count, the `long long` order ids and the `int` symbol ids handed out by `SymbolManager` (`Symbols.SymbolManager.GetId`) do not wrap. The `size_t` wrap of `Capacity - 1` in the capacity test is modelled.
- Latency.LatencyMonitor.Record: requires the sample to fit a uint64, as the source's parameter type does; the uint64 count and bucket counters do not wrap.
- Latency.FloorTarget: the source computes `count * 0.99` in double precision before truncating; the model uses the exact `count * 990 / 1000`, which can differ by one for counts where the double product rounds across an integer.
- Pool.ObjectPool.Release: requires the slot to be in use. The source does not check; releasing a foreign or already free pointer is undefined behaviour there.
- Pool.ObjectPool.Release: the destructor call on the released object is not modelled; the slot keeps its last value, which the next `Acquire` overwrites.
- Queue.LockFreeQueue.constructor: `std::vector<T> buffer_{Capacity}` gives `Capacity` default slots only when `T` cannot be built from a `size_t`, as for the queue of book tickers; for an arithmetic `T` brace-initialisation would give a one-element vector holding `Capacity`. The model assumes the sized constructor.
- Pool.ObjectPool.Acquire: placement-new with constructor arguments is modelled as storing a ready value.
- Orders.OrderManager.GetOrder: the source returns a pointer into the pool, through which later updates are visible; the model returns the order's value at the time of the call.
- Replay.ParseFields: the numeric fields of a default-initialised `BookTicker` are indeterminate in C++; the model takes them, and the update id the parser never sets, from a `blank` parameter.
- The callback of the replay is modelled as a flag saying whether one is set, plus the sequence of tickers it receives. What the callback does with them is not modelled.
- `connect`, `subscribe` and the threads of the adapter and of `main.cpp`, and the strategy that consumes the queue, are not part of this model.
- The five-argument `checkOrder` in `Strategy.hpp` is not part of this model; the four-argument check of `RiskManager` is.
- PerfAnalysis.IsNumberChar: Python's `\d` matches every Unicode decimal digit; the model accepts ASCII 0-9 only.
- PerfAnalysis.ParseLog: only a missing file is reported; other `OSError`s on opening are not modelled.
- The script's number pattern `[\d.]+` accepts any mix of digits and dots, so a token like `1.2.3` reaches `float()` and crashes the script; the model has this as the `Crashed` outcome.

## Findings

| source | as written | input that shows it | evidently intended | confidence | as-written member | corrected member |
|---|---|---|---|---|---|---|
| ExecutionSystem/include/LockFreeQueue.hpp:16-17 | `static_assert((Capacity & (Capacity - 1)) == 0)` as the power-of-two check | `Capacity = 0`: `0 - 1` wraps to `SIZE_MAX`, `0 & SIZE_MAX == 0`, so the check passes and `push` then writes into an empty buffer | only powers of two pass (the check also requires `Capacity > 0`) | not executed | Queue.CapacityCheckAdmitsZero | Queue.ValidCapacityIsPowerOfTwo |
| ExecutionSystem/include/LatencyMonitor.hpp:75-95 | targets `count_ * 0.50`, `count_ * 0.99`, `count_ * 0.999` truncated to integers | one recorded sample of 5000 ns: all three targets are 0, the scan stops at bucket 0, and P50 = P99 = P99.9 = 100 ns though bucket 0 is empty | every percentile lies in a bucket that holds a sample (targets of at least 1) | not executed | Latency.FloorTargetMisreportsSingleSample | Latency.LatencyMonitor.CorrectedReport |

The queue's constructor requires a power-of-two capacity.

`Latency.LatencyMonitor.ComputeReport` computes the report as the source does, with the truncated targets. `Latency.LatencyMonitor.CorrectedReport` uses the corrected targets (`Latency.ClampedTarget`), and `Latency.PositiveTargetEndsOccupiedBucket` shows that each of its percentiles then ends a bucket holding a sample. The two reports agree whenever two or more samples were recorded (`Latency.ClampOnlyAffectsSingleSample`).
