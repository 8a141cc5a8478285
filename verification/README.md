# Order books, joins, calendars and statistics of a trading toolbox

A Dafny model of the stateful parts of a trading research repository, with proofs. `dafny verify
dfyconfig.toml` checks all of it. Floating-point numbers are modelled as reals throughout.

| files | what they model |
|---|---|
| `OrderBook`, `OrderReplay`, `TickGrid`, `OrderBookSim` | The order-book viewer: an event log, a cursor, two price-to-volume maps that are clamped at zero and swept after each order, commands that move the cursor (stepping back replays the log), the power-of-ten tick interval and the bin grid |
| `BookUpdate`, `BookDiff`, `Auction`, `CrossRemoval`, `CrossCuts`, `MatchingBook` | The order book of the signal library: 32-bit volumes and prices, uncrossing during trading hours, the orders that turn one book into another, the auction price, rewriting a log so that its book is not crossed |
| `HeapSortIndex` | The in-place index heap sort and the ranks built on it |
| `SignalJoin`, `RunCounts` | Joins of two nested tables that erase from the second table, the first-wins load, counting rows by runs |
| `EventStore` | The typed event store: a map of maps that owns the copies it makes |
| `Calendar`, `MonthList`, `WeekdayWalk` | The Gregorian calendar on day numbers, the month list of a report, weekday stepping and listing |
| `TickHistory`, `TitleColumns`, `Stats`, `Tokenizer`, `ReturnSeries`, `ConvWindows`, `GapMarks` | Parallel title and value lists, one-pass and two-pass variance, a tokenizer, a window of returns, convolution windows and tree counts, gap marking in a histogram |
| `IntSets`, `Options` | Least and greatest element of a set (the ends of an ordered container), an option type |

Code that works by changing fields, maps or arrays in place is modelled by classes and methods. Each is tied
to a function of the old state, and what the code is for is proved about that function. Ordered containers
are maps and sets whose loops take the least or greatest remaining key.

## What the proofs found

- The clamped level is a reflected running sum for every log if the minimum is taken over the points where
  the clamp can act. `MinimumFormIff` says exactly when the plain minimum of all sums does as well; sizes that
  are not negative are enough, a single add of -3 is a log where it does not.
- The interval scan can end on a power of ten that divides none of the prices: 500 alone gives 1000.
  `IntervalDividesIff` is the exact condition. Positive prices off the tick share a bin exactly when there are more
  than two of them (700, 800 and 900 do, 700 and 900 do not): `DistinctBinsIff`.
- The comparison in `compSig.cpp` carries `time_prev` from one ticker to the next and passes over a first
  row at that time. `JoinIsCompleteIff` says exactly when nothing is lost.
- Counting rows by runs (`cnt_data`) is exact if and only if the rows of the ticker stand together.
- `MEvent::clear` deletes nothing, so every stored object is lost.
- `is_inverted` reads unsigned prices as signed ones. A crossing escapes it exactly when the best ask lies below
  2^31 and the best bid does not (`DeceivesIff`). Uncrossing keeps a book uncrossed exactly while no order
  leaves volume across 2^31 from the best price of the other side, and over a day exactly when moreover it is
  not switched on by such a book (`UpdatedStaysUncrossedIff`, `NeverCrossedIff`); `HighPricesHideADay` is a day
  on which it fails. `remove_crosses` has the same condition (`CrossesAreRemovedIff`).
- The auction of a book whose crossing escapes `is_inverted` reports nothing (`AuctionFindsBestIff`).
- Redrawing before any price has been seen divides by an interval of zero: a session is safe exactly when its
  first redraw has a price (`SessionIsSafeIff`), and stepping back right after loading is not.
- The auction of a book whose crossed volumes exceed 32 bits can miss the best price, but never overstates.
- The log that `remove_crosses` writes can rebuild a different book: a logged delete that overlaps a generated
  one replaces it even when the level has been filled again in between, and deletes still held back at the end
  are lost. `InStepThroughoutIff`, `FlushRebuildsIff` and `EndOfLogRebuildsIff` are the exact conditions.
- Walking weekdays there and back is the identity exactly from a weekday (or for a walk by zero).
- The convolution windows see every column exactly when the stride is at most the kernel or the input at
  most two kernels.

## Model

| member | source | states |
|---|---|---|
| OrderBook.VolumeIsReflectedSum | guis/orderBookSim/OrderBookSim.h:291-354 | For every log, also one with negative sizes, and every side, non-zero price and prefix: the resting volume is the running sum of adds minus deletes, minus the least value that sum had at the start or just after a delete at the level |
| OrderBook.VolumeIsSumMinusMinimum | guis/orderBookSim/OrderBookSim.h:291-354 | With non-negative sizes and a non-zero price the resting volume after n orders is S_n minus the minimum of S_0 .. S_n |
| OrderBook.MinimumFormIff | guis/orderBookSim/OrderBookSim.h:291-354 | For every log and non-zero price the resting volume is S_n minus the plain minimum of S_0 .. S_n if and only if every S_k is at least some running sum at the start or just after a delete at the level |
| OrderBook.NegativeAddIsNotClamped | guis/orderBookSim/OrderBookSim.h:291-354 | The instance of one add of -3, where the plain minimum does not give the volume |
| OrderBook.LevelsAreIndependent | guis/orderBookSim/OrderBookSim.h:291-354 | The volume at a level with a non-zero price is what replaying only the orders of that level gives, whatever the rest of the log is |
| OrderBook.VolumeWithinAdds | guis/orderBookSim/OrderBookSim.h:291-354 | With non-negative sizes every volume stays between 0 and the total added at its level, which bounds the integers the viewer stores |
| OrderBook.SameVolumes | guis/orderBookSim/OrderBookSim.h:291-354 | Two swept sides that show the same volume everywhere are the same map, so volumes determine the book |
| OrderBook.ReplayIsClean | guis/orderBookSim/OrderBookSim.h:341-351 | After any prefix neither map holds price 0 or volume 0 |
| OrderBookSim.EraseDead | guis/orderBookSim/OrderBookSim.h:341-351 | The sweep keeps exactly the entries with a non-zero price and a non-zero volume, unchanged |
| OrderBookSim.OrderBookSim.ReadAnOrder | guis/orderBookSim/OrderBookSim.h:291-354 | The invariant "books, time and cursor are the replay of the log up to the cursor" is kept and the state moves by the Next step of the command semantics |
| OrderReplay.RunsStayOnReplay | guis/orderBookSim/OrderBookSim.h:221-289 | Whatever commands a session issues, time and both books are those of replaying the orders before the cursor |
| OrderReplay.CursorDeterminesState | guis/orderBookSim/OrderBookSim.h:221-289 | Two sessions over one log that stop at the same cursor show the same time and book |
| OrderReplay.PrevUndoesNext | guis/orderBookSim/OrderBookSim.h:271-289 | In every reachable state next-then-prev and prev-then-next change nothing, as long as there is an order to step over |
| OrderReplay.JumpStopsAtFirst | guis/orderBookSim/OrderBookSim.h:231-269 | A jump stays put when the time is reached already, else ends just past the first order at or after the target, on the replay of that prefix; it runs off the log exactly when no such order is left |
| OrderReplay.GotoIsJump | guis/orderBookSim/OrderBookSim.h:231-269 | Going to a time ends in the state of a jump to it |
| OrderReplay.ResetReloads | guis/orderBookSim/OrderBookSim.h:221-229 | After any session a reset leads to cursor zero, time zero and no prices |
| OrderReplay.NextReadsOne | guis/orderBookSim/OrderBookSim.h:271-277 | A step shows the time of the order under the cursor and the replay up to it, and moves past it |
| OrderReplay.JumpsCompose | guis/orderBookSim/OrderBookSim.h:231-269 | Jumping to t and then to u is one jump to the later of the two, from any state and for any t and u, also when the first jump runs off the log |
| OrderReplay.PrevThenJumpAgain | guis/orderBookSim/OrderBookSim.h:252-289 | One step back from a jump that moved is before the target again, and repeating the jump returns to the same state |
| OrderReplay.SessionIsSafeIff | guis/orderBookSim/OrderBookSim.h:213-407 | A session that reads inside its log never divides by an interval of zero if and only if its first redraw, if there is one, has a price to draw |
| OrderReplay.ExecShownIff | guis/orderBookSim/OrderBookSim.h:231-289 | A command fails in a redraw if and only if no price has been drawn since loading and its first redraw has none; else it leads where it would without redrawing |
| OrderReplay.PrevFirstFails | guis/orderBookSim/OrderBookSim.h:279-289 | Stepping back right after loading leads to the start and divides there by an interval of zero, whatever the log |
| OrderBookSim.OrderBookSim.constructor | guis/orderBookSim/OrderBookSim.h:167-219 | A new viewer is in the start state and satisfies the invariant |
| OrderBookSim.OrderBookSim.InitVars | guis/orderBookSim/OrderBookSim.h:167-219 | Loading columns of one length gives a valid viewer at the start of that log |
| OrderBookSim.OrderBookSim.Clear | guis/orderBookSim/OrderBookSim.h:221-229 | reset() goes to the start state from any cursor, time and books |
| OrderBookSim.OrderBookSim.NextOrder | guis/orderBookSim/OrderBookSim.h:271-277 | Moves by the Next step, with its redraw; redrawing does not touch the book |
| OrderBookSim.OrderBookSim.PrevOrder | guis/orderBookSim/OrderBookSim.h:279-289 | The replay loop moves by the Prev step and keeps the invariant |
| OrderBookSim.OrderBookSim.GotoMsecs | guis/orderBookSim/OrderBookSim.h:231-250 | The loop that redraws after every order reaches the state of the Goto step, which is that of a jump |
| OrderBookSim.OrderBookSim.JumptoMsecs | guis/orderBookSim/OrderBookSim.h:252-269 | The loop terminates when an order at or after the target is left and reaches the state of the Jumpto step |
| OrderBookSim.ScanInterval | guis/orderBookSim/OrderBookSim.h:372-399 | The nested scan terminates and returns 10^k for one of its two exits: stopped by a price that 10^(k+1) does not divide, or run out at the greatest price |
| TickGrid.ScanEndsOnce | guis/orderBookSim/OrderBookSim.h:372-399 | The two exits exclude each other and fix the interval: no two powers of ten meet that description for the same prices |
| TickGrid.StoppedIsLargestDivisor | guis/orderBookSim/OrderBookSim.h:372-399 | After the first exit a power of ten divides every price exactly when it does not exceed the interval |
| TickGrid.RanOutDivisors | guis/orderBookSim/OrderBookSim.h:372-399 | After the second exit every smaller power of ten divides every price |
| TickGrid.IntervalDividesIff | guis/orderBookSim/OrderBookSim.h:372-399 | With 10^k the least power not below the greatest price, the returned interval divides every price if and only if k = 0, or 10^(k-1) does not divide every price, or 10^k does |
| TickGrid.IntervalFitsIff | guis/orderBookSim/OrderBookSim.h:372-399 | For 32-bit prices the interval leaves 32 bits if and only if the greatest price exceeds 10^9 and all prices are multiples of 10^9; up to a greatest price of 10^9 it is at most 10^9 |
| TickGrid.GridIsExactIff | guis/orderBookSim/OrderBookSim.h:401-403 | nbins * interval equals histHigh - histLow if and only if the interval divides the price span; nbins is the span in intervals plus five |
| TickGrid.BinOnTick | guis/orderBookSim/OrderBookSim.h:401-458 | On an exact grid a price on the tick lands in the bin starting at it, between bin 3 and nbins - 2 |
| TickGrid.PricesGetTheirOwnBins | guis/orderBookSim/OrderBookSim.h:401-458 | When the interval divides every price the bins tile the range, distinct prices have distinct bins and all lie in 3 .. nbins - 2 |
| TickGrid.DistinctBinsIff | guis/orderBookSim/OrderBookSim.h:372-458 | For positive prices with the interval the scan returns: distinct prices land in distinct bins if and only if the interval divides all of them or there are at most two |
| TickGrid.InnerBinsIff | guis/orderBookSim/OrderBookSim.h:372-458 | For the same prices: the bins tile the drawn range if and only if the interval divides all prices or there is one price only, and under the same condition exactly all prices lie in 3 .. nbins - 2 |
| TickGrid.OffTickPricesCollide | guis/orderBookSim/OrderBookSim.h:372-403 | The instance 700, 800, 900: interval 1000, two prices in one bin, and no exact grid |
| TickGrid.OnePriceCanBeOffTick | guis/orderBookSim/OrderBookSim.h:372-399 | The single price 500 gives the interval 1000 |
| OrderBookSim.PriceRange | guis/orderBookSim/OrderBookSim.h:358-370 | With prices on both sides the comparisons give the least and the greatest resting price; whatever is read for an empty side, the range comes out in order |
| OrderBookSim.OrderBookSim.GetDrawParam | guis/orderBookSim/OrderBookSim.h:356-407 | The interval is that of the resting prices as soon as there is one, the grid is theirs when both sides have one, and there are at least five bins; the book is unchanged |
| OrderBookSim.OrderBookSim.DrawBook | guis/orderBookSim/OrderBookSim.h:409-412 | Given a price that rests or has been drawn since loading, a redraw changes drawing parameters only and leaves the interval of the resting prices, or the old one when none rests; without such a price the code divides by zero |
| MatchingBook.BookOfOrders.Update | source/src/jl_lib/Book.cpp:269-380 | One order changes the book and the uncrossed-after-open flag as the day step says (32-bit wrapping adds, clamped deletes, cutting crossed levels while trading), and the result tells whether a delete found enough volume |
| MatchingBook.BookOfOrders.CutAsks | source/src/jl_lib/Book.cpp:290-294 | The erase loop keeps exactly the asks from the first one on that does not look inverted against the best bid, with their volumes |
| MatchingBook.BookOfOrders.CutBids | source/src/jl_lib/Book.cpp:329-333 | The erase loop keeps exactly the bids from the first one down that does not look inverted against the best ask |
| BookUpdate.UncrossRemovesLeast | source/src/jl_lib/Book.cpp:285-334 | With prices below 2^31 cutting leaves an uncrossed book and is the smallest cut: any part of the other side that is not crossed survives, with its volumes |
| BookUpdate.CuttingAddVolumes | source/src/jl_lib/Book.cpp:279-336 | An add with cutting on, below 2^31: its own side keeps every level and gains the size at the price; the other side keeps exactly the volumes strictly beyond the order's price and every level of its own side |
| BookUpdate.PlainOrderVolumes | source/src/jl_lib/Book.cpp:279-355 | An order that does not cut changes the volume at its own price, by a wrapping add or a clamped delete, and no other |
| BookUpdate.BidTakesOutAsk | source/src/jl_lib/Book.cpp:283-296 | A bid of 3 at 101 takes out the ask at 100 and stays |
| BookUpdate.NoCutOutsideTrading | source/src/jl_lib/Book.cpp:285-368 | Before uncrossing is on and outside trading an order changes the volume at its own price only, and outside trading the flag stays |
| BookUpdate.UncrossingStartsIff | source/src/jl_lib/Book.cpp:359-368 | Uncrossing is switched on exactly by an order of the trading hours after which, below 2^31, every ask is above every bid |
| BookUpdate.TypeWords | source/src/jl_lib/Book.cpp:276-277 | Type words 0 to 3 are bid add, bid delete, ask add, ask delete |
| BookUpdate.TradingHours | source/src/jl_lib/Sessions.cpp:50-55 | Trading lies strictly between open and close |
| BookUpdate.CutLeavesCrossedIff | source/src/jl_lib/Book.cpp:285-334 | For all 32-bit prices: cutting leaves a book crossed if and only if it was crossed and the signed comparison did not show it |
| BookUpdate.DeceivesIff | source/src/jl_lib/Book.cpp:406-417 | A crossing escapes the signed comparison if and only if the best ask lies below 2^31 and the best bid does not |
| BookUpdate.UpdatedStaysUncrossedIff | source/src/jl_lib/Book.cpp:269-380 | A delete never crosses an uncrossed book; an add that may cut does so if and only if it leaves volume at a price across 2^31 from the best price of the other side, a condition on book and order before the call |
| BookUpdate.NeverCrossedIff | source/src/jl_lib/Book.cpp:269-380 | Over every day of 32-bit orders in time order with uncrossing on: after every order from the first moment after the open at which the book does not look inverted until the close the book is uncrossed, if and only if every order is safe when it arrives: while uncrossing is on it does not hide a crossing in the sense above, and at an order that may switch it on the best prices of the changed book do not straddle 2^31 |
| BookUpdate.NeverCrossedWhileTrading | source/src/jl_lib/Book.cpp:269-380 | With prices below 2^31 that is every day |
| BookUpdate.HighPricesHideADay | source/src/jl_lib/Book.cpp:269-380 | A day of two orders, an ask at 150 and a bid at 2^31, on which uncrossing is switched on by a crossed book |
| BookUpdate.InvertedIff | source/src/jl_lib/Book.cpp:406-417 | Reading unsigned prices as signed ones shows whether a book is crossed if and only if both best prices, or neither, are at or above 2^31 |
| BookUpdate.HighPricesDeceive | source/src/jl_lib/Book.cpp:406-417 | A bid at 2^31 hides a crossing, and deleting it makes the book look inverted |
| BookUpdate.CrossedMeans | source/src/jl_lib/Book.cpp:406-417 | Comparing the best prices is asking whether any ask is at or below any bid |
| MatchingBook.EraseZeros | source/src/jl_lib/Book.cpp:419-434 | Keeps exactly the levels with volume |
| MatchingBook.BookOfOrders.RemoveZeros | source/src/jl_lib/Book.cpp:419-434 | Both sides lose exactly their empty levels |
| MatchingBook.BookOfOrders.RemoveCrosses | source/src/jl_lib/Book.cpp:60-202 | The rewritten log and the book left are those of the run the next lemmas are about |
| CrossRemoval.InStepThroughoutIff | source/src/jl_lib/Book.cpp:60-202 | Over every log: after each order, replaying what is written and held back gives the book held, if and only if each order keeps its own level in step, a condition on the volume written, due and added or deleted there |
| CrossRemoval.StaysInStepIff | source/src/jl_lib/Book.cpp:76-195 | From a state in step, one order leads to a state in step if and only if it keeps its own level in step; what it cuts never matters |
| CrossRemoval.FlushRebuildsIff | source/src/jl_lib/Book.cpp:90-99 | When the deletes held back have been written out, replaying the written log gives the book held if and only if the state was in step |
| CrossRemoval.EndOfLogRebuildsIff | source/src/jl_lib/Book.cpp:193-201 | What is held back at the end is lost: the written log of a run in step gives the book held if and only if nothing is due at a level where volume was written |
| CrossRemoval.EndOfLogLosesADelete | source/src/jl_lib/Book.cpp:193-201 | Three orders after which the written log leaves 5 at a level the book no longer has |
| CrossRemoval.CrossesAreRemovedIff | source/src/jl_lib/Book.cpp:60-202 | Over every log of 32-bit orders in time order: from the first positive spread after the open until the close the best ask held is never below the best bid, if and only if every order is safe when it arrives: while uncrossing is on it leaves no volume at a price across 2^31 from the best price of the other side, and an order that switches uncrossing on does not do so over a negative spread |
| CrossRemoval.CrossesAreRemoved | source/src/jl_lib/Book.cpp:60-202 | With prices below 2^31 that is every log |
| CrossRemoval.TakeIsNegativeIff | source/src/jl_lib/Book.cpp:105-180 | With uncrossing on, one order makes the spread negative if and only if it leaves volume at such a price; a delete never does |
| CrossRemoval.FlushedLogIsNotNegative | source/src/jl_lib/Book.cpp:90-99 | With prices below 2^31 and a log in step, the book that the written log rebuilds after a flush has no negative spread either |
| CrossRemoval.OverlapLosesStep | source/src/jl_lib/Book.cpp:80-89 | Five orders after which the rewritten log leaves 7 at a level where the book holds 2: a logged delete took the place of the generated one although the level had been filled again |
| CrossCuts.CutIsSmallest | source/src/jl_lib/Book.cpp:118-168 | Below 2^31 the cut leaves the side added to alone and keeps exactly the levels of the other side at or beyond every level of it, with their volumes |
| CrossCuts.CutOrdersAre | source/src/jl_lib/Book.cpp:120-167 | Below 2^31 the deletes generated are one for the whole of each erased level, asks ascending and bids descending |
| CrossCuts.OnlyTheCrossedAskGoes | source/src/jl_lib/Book.cpp:118-130 | With asks at 102 and 110 a bid at 103 cuts the one at 102 |
| CrossCuts.CoveredBy | source/src/jl_lib/Book.cpp:84-85 | A logged order covers a generated delete of the same price and kind that is not larger; a smaller one does not |
| CrossCuts.UncrossingStartsIff | source/src/jl_lib/Book.cpp:182-191 | Uncrossing is switched on exactly by an order of the trading hours that leaves levels on both sides and, below 2^31, every ask above every bid, the level just changed included |
| CrossCuts.TakeWrites | source/src/jl_lib/Book.cpp:78-99 | An order writes what was held back, in order, if time has moved on, and then itself; what it does not cover stays held back before what it generates |
| CrossCuts.UncoveredOfConcat | source/src/jl_lib/Book.cpp:82-88 | Deletes that are not covered stay in order |
| CrossCuts.NoCutOutsideTrading | source/src/jl_lib/Book.cpp:105-195 | Before uncrossing is on and outside trading an order is written, changes the volume at its own price only and generates nothing |
| CrossRemoval.CutsReplay | source/src/jl_lib/Book.cpp:118-130 | Replaying the deletes generated for the crossed levels erases exactly those levels |
| CrossRemoval.CutLevels | source/src/jl_lib/Book.cpp:118-130 | The loop erases the levels and generates the deletes of that cut, best level first |
| CrossRemoval.EraseCovered | source/src/jl_lib/Book.cpp:82-88 | The erasing loop keeps exactly the deletes that the logged order does not cover, in order |
| CrossRemoval.RunIsSound | source/src/jl_lib/Book.cpp:60-202 | In every run only deletes are held back, all fields stay unsigned and the book stays free of empty levels |
| MatchingBook.BookOfOrders.constructor | source/src/jl_lib/Book.cpp:12-25 | A new book is empty and its flag is down |
| MatchingBook.BookOfOrders.GetBookDiff | source/src/jl_lib/Book.cpp:631-723 | Applying the returned orders to this book yields the new book, for any two books with 32-bit volumes; at most one order a level, each for the exact difference and stamped with the given time, and of size zero only for an empty level that the new book lists and this one does not; they are listed bids before asks, the levels of this book first and best first, then the new ones from the greatest price down; both books end up swept and otherwise unchanged although the lookups create empty levels in them |
| BookDiff.DiffBooks | source/src/jl_lib/Book.cpp:631-723 | The four passes together produce such a list |
| BookDiff.DiffLevels | source/src/jl_lib/Book.cpp:636-684 | A pass over the own levels settles each of them with at most one order and leaves the other side alone |
| BookDiff.DiffNewLevels | source/src/jl_lib/Book.cpp:686-718 | A pass over the new book settles the levels missing here |
| BookDiff.DiffOwnLevels | source/src/jl_lib/Book.cpp:636-684 | The first two passes settle every level of this book on both sides |
| BookDiff.DiffOtherLevels | source/src/jl_lib/Book.cpp:686-718 | The last two passes settle the levels only the new book has |
| BookDiff.ApplyAllByLevel | source/src/jl_lib/Book.cpp:631-723 | Applying a list of orders acts on each level as the orders of that level alone do |
| BookDiff.Settled | source/src/jl_lib/Book.cpp:631-723 | Orders that settle every level on both sides carry the one book to the other |
| Auction.AuctionFindsBest | source/src/jl_lib/Book.cpp:566-629 | With prices below 2^31 and crossed volumes that fit in 32 bits the result is the price with the most tradable volume, then the least surplus, then the lowest price; no price at all, listed or not, trades more; a volume is reported if and only if the levels with volume are crossed |
| Auction.AuctionFindsBestIff | source/src/jl_lib/Book.cpp:566-629 | While what is sold up to the best bid and bought down to the best ask fits in 32 bits, whatever lies outside, the early-stopping scan finds the best outcome if and only if the book looks inverted or its levels with volume are not crossed |
| Auction.AuctionNeverOverstates | source/src/jl_lib/Book.cpp:566-629 | For every book, also one whose sums wrap: the reported volume is tradable at the reported price, and the price is a listed one when something is reported |
| Auction.AuctionNeedsFit | source/src/jl_lib/Book.cpp:566-629 | Whenever the best outcome is reported, less than 2^32 is tradable at every price, so with more the scan always fails |
| Auction.NothingTradesIff | source/src/jl_lib/Book.cpp:568-570 | Nothing trades at any price if and only if the levels with volume are not crossed |
| Auction.CrossedPartDecides | source/src/jl_lib/Book.cpp:574-616 | Outside the crossed prices nothing trades, whatever wraps, and inside them nothing wraps |
| Auction.ReportedPriceIsBest | source/src/jl_lib/Book.cpp:592-625 | The same in terms of what is sold and bought alone: the reported volume is the lesser of the two at the reported price, no listed price trades more, none that trades as much leaves less over, and a lower one that trades as much leaves more |
| Auction.LeastIsLeftOver | source/src/jl_lib/Book.cpp:615-622 | Of two prices that trade 10 the one that leaves nothing over is reported |
| Auction.SellVolumeStep | source/src/jl_lib/Book.cpp:583-590 | What is sold rises from price to price by the volume asked there, from zero below all asks |
| Auction.BuyVolumeStep | source/src/jl_lib/Book.cpp:574-581 | What is bought rises from price to lower price by the volume bid there, from zero above all bids |
| Auction.SameTradesSameScan | source/src/jl_lib/Book.cpp:592-625 | The scan depends on the tradable volumes, and on the surplus only where something trades |
| Auction.WrappedSumsCanBeRight | source/src/jl_lib/Book.cpp:584-590 | A book whose crossed sums wrap and whose result is still the best at every price, so that the sufficient condition is not necessary |
| Auction.ScanFindsBest | source/src/jl_lib/Book.cpp:592-625 | For any rising supply and falling demand the scan that stops at the first worse price finds the best of all prices |
| Auction.OnceWorseAlwaysWorse | source/src/jl_lib/Book.cpp:623-624 | Past the best price a worse price is followed by worse prices only, which justifies the early stop |
| Auction.BooksAreEconomic | source/src/jl_lib/Book.cpp:574-590 | The cumulative volumes of any book are a rising supply and a falling demand |
| Auction.NoPriceTradesMore | source/src/jl_lib/Book.cpp:572-590 | Looking at the listed prices is enough: a price between two levels trades no more |
| Auction.NothingTradesUncrossed | source/src/jl_lib/Book.cpp:568-570 | An uncrossed book trades nothing at any price, so skipping it is right |
| Auction.WrappedSumsMissTheBest | source/src/jl_lib/Book.cpp:584-590 | Two asks of 2^31 wrap to zero and the scan reports half of what would trade |
| Auction.CumulateBids | source/src/jl_lib/Book.cpp:574-581 | Running sums from the best bid down tabulate the demand curve, reduced to 32 bits |
| Auction.CumulateAsks | source/src/jl_lib/Book.cpp:583-590 | Running sums from the best ask up tabulate the supply curve, reduced to 32 bits |
| Auction.TradableAsk | source/src/jl_lib/Book.cpp:599-608 | Walking up the table finds the supply at a price, between levels too |
| Auction.TradableBid | source/src/jl_lib/Book.cpp:610-613 | `lower_bound` finds the demand at a price, between levels too |
| Auction.ScanPrices | source/src/jl_lib/Book.cpp:592-625 | The loop computes the scan the lemmas are about |
| Auction.GetAuction | source/src/jl_lib/Book.cpp:566-629 | Returns the outcome of the scan, the price in units of 10000 ticks and the volume as a signed 32-bit integer |
| HeapSortIndex.HeapSort | source/include/jl_lib/sort_util.h:59-93 | For every data array the index array becomes a permutation (with its inverse) that reads the data in ascending order |
| HeapSortIndex.MakeHeap | source/include/jl_lib/sort_util.h:66-79 | The first half leaves a permutation whose every node is no less than its children |
| HeapSortIndex.DownHeap | source/include/jl_lib/sort_util.h:40-57 | The sift through a hole leaves what a sift by exchanges leaves |
| HeapSortIndex.HoleIsExchange | source/include/jl_lib/sort_util.h:40-57 | Keeping the entry out of the array until its place is found equals exchanging it down step by step |
| HeapSortIndex.SiftDownMakesHeap | source/include/jl_lib/sort_util.h:40-57 | The sift turns a heap with one bad node into a heap, permutes only the first N + 1 entries and keeps the rest |
| HeapSortIndex.RootIsGreatest | source/include/jl_lib/sort_util.h:81-91 | With children 2k and 2k + 1 counted from zero the root still holds a greatest element |
| HeapSortIndex.RootToEnd | source/include/jl_lib/sort_util.h:81-91 | Moving the root behind the heap puts one more entry in its final place |
| HeapSortIndex.HeapSortVector | source/include/jl_lib/sort_util.h:105-112 | With vectors of different length nothing happens, otherwise the array is sorted |
| HeapSortIndex.Rank | source/include/jl_lib/sort_util.h:95-103 | Ranks are a permutation and a smaller value has a smaller rank |
| SignalJoin.CompPred | source/bin/compPred.cpp:180-216 | Count, sums, sums of squares and cross sums of each of the five correlators grow by exactly those of the named predictions and targets over the (uid, time) keys common to both tables, and the second table ends up as itself minus the keys of the first |
| SignalJoin.FedIsCompared | source/bin/compPred.cpp:200-209 | What the correlators hold, as sums over the keys: x, x^2, y, y^2, xy and (xy)^2 for pred1/pred2, pred1/target1, pred1/target2, pred2/target1 and pred2/target2 |
| SignalJoin.CrossSumOfOne | source/bin/compPred.cpp:205-205 | Predictions 2 and 3 at one common key add 6 to the cross sum |
| SignalJoin.WithoutIs | source/bin/compPred.cpp:211-211 | What is left of a table: exactly the given keys are missing, other rows are as before, all tickers stay |
| SignalJoin.FirstRowIs | source/bin/compPred.cpp:276-292 | The row loaded for a key is accepted for it and none before it is |
| SignalJoin.LoadsIff | source/bin/compPred.cpp:285-285 | The header and rows at or before time zero are not accepted |
| SignalJoin.VisitKey | source/bin/compPred.cpp:192-213 | One key of the first table: fed and erased when the remaining second table has it, else nothing |
| SignalJoin.AddAllSplit | source/bin/compPred.cpp:205-209 | What a correlator holds depends on the set of fed keys alone, not on their order |
| SignalJoin.GetData | source/bin/compPred.cpp:276-292 | The loaded table holds, for every key, the first accepted row of the file and nothing else |
| SignalJoin.CompSig | source/bin/compSig.cpp:303-358 | The keys handed to fill_stat are the common keys except a ticker's first row whose time equals the carried `time_prev`, each exactly once; the second table loses exactly those |
| SignalJoin.VisitRow | source/bin/compSig.cpp:314-353 | One row of the first table: passed over exactly when its time is the previous one, fed and erased when the second table has it |
| SignalJoin.SkippedIff | source/bin/compSig.cpp:316-317 | Only the first row of a ticker can meet its own time in `time_prev` |
| SignalJoin.FirstTickerSkipsIff | source/bin/compSig.cpp:303-317 | The first ticker has its first row passed over if and only if that is at time zero |
| SignalJoin.NextTickerSkipsIff | source/bin/compSig.cpp:303-353 | After a ticker with rows the next one has its first row passed over if and only if its least time is the greatest of the one before |
| SignalJoin.JoinIsCompleteIff | source/bin/compSig.cpp:303-358 | All common keys are fed if and only if no passed-over first row has a partner in the second table |
| SignalJoin.CarriedTimeLosesARow | source/bin/compSig.cpp:303-358 | Two tickers with one row each at the same time: the second row is lost although both tables have it |
| RunCounts.CntData | source/bin/compSig.cpp:566-591 | The count stored for a ticker is the length of its last run of rows |
| RunCounts.LastRunIs | source/bin/compSig.cpp:577-590 | That run ends with the last row of the ticker and begins after a row of another one |
| RunCounts.CountIsExactIff | source/bin/compSig.cpp:566-591 | It is the number of rows of the ticker if and only if those rows stand together |
| EventStore.MEvent.Add | source/include/MFramework/MEvent.h:48-65 | A copy is stored under the key and all other keys keep their values; one object is made, the replaced one is deleted, and the invariant holds: one owner each, no ticker left empty, objects made minus deleted equal stored plus lost ones |
| EventStore.MEvent.Renew | source/include/MFramework/MEvent.h:52-61 | Deleting the old object before making the copy leaves every live object with exactly one owner |
| EventStore.MEvent.Remove | source/include/MFramework/MEvent.h:67-83 | The key goes, others stay, its object is deleted, and a ticker left empty goes too; an absent key changes nothing |
| EventStore.MEvent.Release | source/include/MFramework/MEvent.h:74-79 | Deleting the object and erasing its entry keeps the ownership invariant |
| EventStore.MEvent.Get | source/src/MFramework/MEvent.cpp:35-41 | A live object with the stored value, or null exactly when the key is absent |
| EventStore.MEvent.Clear | source/src/MFramework/MEvent.cpp:25-28 | Empties the map and deletes nothing: every stored object is lost, as many as there were keys |
| EventStore.MEvent.constructor | source/src/MFramework/MEvent.cpp:22-23 | A new store is empty and has made nothing |
| EventStore.EraseEntry | source/include/MFramework/MEvent.h:77-79 | Erasing the entry and then a ticker without entries removes just that key |
| EventStore.PutIsUpdate | source/include/MFramework/MEvent.h:62-62 | Storing in the map of maps is updating one key of a flat map |
| EventStore.DropIsRemoval | source/include/MFramework/MEvent.h:77-79 | Erasing from the map of maps is removing one key of the flat map and leaves no empty ticker |
| EventStore.DropUndoesPut | source/include/MFramework/MEvent.h:48-83 | Removing a newly added key restores the map of maps exactly, tickers included |
| EventStore.OneOwnerEach | source/include/MFramework/MEvent.h:48-83 | Distinct keys hold distinct objects, there are as many live owned objects as keys, and none of them is lost |
| EventStore.NewObjectKeepsOwners | source/include/MFramework/MEvent.h:48-65 | Adding under a new or an old key keeps one owner each and the count of made minus deleted objects |
| EventStore.DeletedObjectKeepsOwners | source/include/MFramework/MEvent.h:67-83 | So does deleting an object with its key |
| EventStore.ClearLosesAll | source/src/MFramework/MEvent.cpp:25-28 | Emptying without deleting keeps that count while every object becomes unreachable |
| WeekdayWalk.StepWeekdays | source/bin/get_idate.cpp:190-212 | The loops compute the walk by dd weekdays in the direction of its sign |
| WeekdayWalk.KeepStepping | source/bin/get_idate.cpp:203-209 | The inner loop ends on the first weekday in that direction |
| WeekdayWalk.WalkCounts | source/bin/get_idate.cpp:190-212 | A walk ends on a weekday with exactly |dd| weekdays stepped over; only a walk by zero can end on a weekend |
| WeekdayWalk.WalkEndIsUnique | source/bin/get_idate.cpp:190-212 | That count determines the end: no other weekday has it |
| WeekdayWalk.ClosedForm | source/bin/get_idate.cpp:190-212 | From any day and for any dd: start + dd + 2 * ((w + dd) / 5) forward and its mirror image backward, where a weekend counts as the weekday behind it |
| WeekdayWalk.ForwardFromWeekday | source/bin/get_idate.cpp:190-212 | From weekday w the walk by n >= 0 ends n + 2 * ((w + n) / 5) days later |
| WeekdayWalk.BackwardFromWeekday | source/bin/get_idate.cpp:190-212 | The same backward, counted from Friday |
| WeekdayWalk.ThereAndBack | source/bin/get_idate.cpp:190-212 | Walking n weekdays and back, in either order of directions, is the identity if and only if n is zero or the start is a weekday |
| WeekdayWalk.ListDays | source/bin/get_idate.cpp:115-136 | The listing prints every weekend day (or every weekday) of the range once, in order, also when the end is no date |
| WeekdayWalk.Epoch | source/bin/get_idate.cpp:121-122 | The first of January of the year 1 is day 1, that of 2024 is a Monday |
| WeekdayWalk.WeekendsFrom2024 | source/bin/get_idate.cpp:121-132 | Counting calendar days from that Monday in both directions, the weekend days are those with remainder 5 or 6 modulo seven after it and 1 or 2 before it |
| WeekdayWalk.FirstWeekendOf2024 | source/bin/get_idate.cpp:119-123 | Of 20240101 to 20240107 the last two are the weekend |
| Calendar.LeapYearsAre | source/bin/get_idate.cpp:119-119 | Centuries are leap years every fourth time only |
| Calendar.MonthLengths | source/bin/get_idate.cpp:119-119 | The days of each month |
| Calendar.EncodingKeepsOrder | source/bin/get_idate.cpp:119-119 | Comparing yyyymmdd integers is comparing days |
| Calendar.NextDayIsOneLater | source/bin/get_idate.cpp:119-119 | The calendar successor is a date and one day later |
| MonthList.GetYYYYMMs | scripts/oosMon/oosTool.py:37-44 | The months from getFirstDay to getLastDay, both included; fails exactly when a subtraction leaves the calendar |
| MonthList.MonthsBetween | scripts/oosMon/oosTool.py:37-44 | The loop terminates and lists the consecutive months between two firsts of months |
| MonthList.ListCoversTheYears | scripts/oosMon/oosTool.py:37-44 | 12 * nYear + 1 entries from the month nYear years back, for every nYear up to 100; for any nYear exactly when the leap days fit in that month |
| MonthList.ListIsConsecutive | scripts/oosMon/oosTool.py:37-44 | Each entry is the calendar successor of the one before |
| MonthList.LastDayIs | scripts/oosMon/oosTool.py:25-29 | The last month is the one that holds the day forty days ago; before day 41 of the calendar there is none |
| MonthList.FirstDayIff | scripts/oosMon/oosTool.py:19-23 | getFirstDay stays in the month nYear years back if and only if the leap days in between are fewer than its days, which is always so up to 100 years |
| MonthList.DaysBetweenYears | scripts/oosMon/oosTool.py:19-23 | n years between firsts of a month are 365 * n days and the leap days in between |
| MonthList.AtMostTwentyFive | scripts/oosMon/oosTool.py:19-23 | Up to 100 years hold at most 25 leap days |
| MonthList.LoopEndsBeforeToday | scripts/oosMon/oosTool.py:25-44 | The month after the last one began at least nine days before today, so the loop does not leave the calendar |
| TickHistory.Values | cronjobs/hstrmon/TickHist.py:322-357 | As many values as titles, and the k-th value is the one the k-th title announces; the lookup fails if and only if a region is said to have a market whose sizes were not read |
| TickHistory.MarketValues | cronjobs/hstrmon/TickHist.py:332-345 | The first loop lists the sizes and sums of every market and remembers what the regions need |
| TickHistory.RegionValues | cronjobs/hstrmon/TickHist.py:346-356 | The second loop lists the sums over the markets of every region from the remembered sizes |
| TickHistory.Titles | cronjobs/hstrmon/TickHist.py:285-296 | The titles of every market and then of every region, simple views first, the sum last |
| TitleColumns.MarketColumn | cronjobs/hstrmon/TickHist.py:285-296 | Columns by position: the markets come first, each with its views in order and then the sum |
| TitleColumns.RegionColumn | cronjobs/hstrmon/TickHist.py:285-296 | Columns by position: the regions follow likewise, ALL first |
| TickHistory.SimpleValues | cronjobs/hstrmon/TickHist.py:334-353 | A market's simple column is the size itself, a region's that of its markets |
| TickHistory.MarketsOfLocale | cronjobs/hstrmon/TickHist.py:124-136 | No name and ALL stand for every market, a name that is no region for itself |
| TickHistory.CatalogueIsWellFormed | cronjobs/hstrmon/TickHist.py:35-39 | The catalogue of the code meets the condition of the next rows |
| TickHistory.KnownRegionsHaveKnownMarkets | cronjobs/hstrmon/TickHist.py:119-136 | With the region names the code knows no lookup fails |
| TickHistory.RegionSumsItsMarkets | cronjobs/hstrmon/TickHist.py:346-356 | The sum of a region is the sum of its markets' sums |
| TickHistory.AllIsTheSumOfTheRegions | cronjobs/hstrmon/TickHist.py:119-136 | The ALL total is the sum of the region totals, for any catalogue over the region names the code knows |
| TickHistory.SumsExchange | cronjobs/hstrmon/TickHist.py:322-357 | Adding views first or markets first gives the same |
| Stats.SumsAreOrdered | scripts/python/myStat.py:6-20 | For every non-empty stream n * sum2 >= sum^2, with equality if and only if the stream is constant |
| Stats.OnePassIsTwoPass | scripts/python/myStat.py:6-20 | n times the one-pass variance is the two-pass sum of squared deviations from the mean |
| Stats.DeviationsVanishIff | cronjobs/hstrmon/TickHist.py:720-720 | Squared deviations are never negative and vanish exactly for a stream that stays at the centre |
| Stats.Acc.Add | scripts/python/myStat.py:11-14 | The fields stay the sum, the sum of squares and the count of the stream |
| Stats.Acc.Mean | scripts/python/myStat.py:15-18 | The mean of the stream, 0 for the empty one |
| Stats.Acc.Variance | scripts/python/myStat.py:19-20 | The argument of the root is never negative, n times it is the two-pass sum, it is zero exactly for a constant stream, and only the empty stream divides by zero |
| Stats.Acc.constructor | scripts/python/myStat.py:7-10 | A new accumulator has seen nothing |
| Stats.GetMeanAndVariance | cronjobs/hstrmon/TickHist.py:715-723 | Two passes: the mean and a non-negative variance that is the one-pass one up to the factor n / (n - 1); zeros below two entries |
| Tokenizer.Split | scripts/rootinclude/ftns.h:7-29 | The index loops terminate and return the token list |
| Tokenizer.TokensIff | scripts/rootinclude/ftns.h:7-29 | A list is the token list of a line if and only if the line is that list of words woven with separator gaps, inner gaps non-empty |
| Tokenizer.SplitOfWeave | scripts/rootinclude/ftns.h:7-29 | Splitting any separator-joined list of words returns the list |
| Tokenizer.LineIsWeave | scripts/rootinclude/ftns.h:7-29 | Tokens are non-empty and free of separators, and the line is put together from them |
| Tokenizer.TokensKeepTheRest | scripts/rootinclude/ftns.h:7-29 | The concatenated tokens are the line without its separators |
| Tokenizer.WhiteSpaceCodes | scripts/rootinclude/ftns.h:14-14 | White space is the blank and the codes 9 to 13 |
| Tokenizer.TokensOfALine | scripts/rootinclude/ftns.h:7-29 | A line with blanks, a tab and delimiters in runs |
| Tokenizer.SkipSeps | scripts/rootinclude/ftns.h:14-15 | Skipping separators loses no token |
| Tokenizer.WordEnd | scripts/rootinclude/ftns.h:17-19 | Ends at the first separator after the start |
| ReturnSeries.GetRetSeriesSimple | scripts/python/NpReader.py:60-73 | Always 20 entries: zeros in front, then the guarded returns of the last points in order |
| ReturnSeries.NoLookAhead | scripts/python/NpReader.py:60-73 | Series that agree up to iP give the same window |
| ReturnSeries.MissingIsZero | scripts/python/NpReader.py:68-71 | Where a price is at most 0.01 or a flag is missing the entry is zero |
| ReturnSeries.CompoundedReturn | scripts/python/NpReader.py:60-73 | Over a window without missing data the product of 1 + r / 10000 is vMid[iP] / vMid[iP - min(20, iP)] |
| ReturnSeries.GrowthTelescopes | scripts/python/NpReader.py:60-73 | Leading zeros and the returns along any price path multiply up to the ratio of its ends |
| ConvWindows.Windows | scripts/python/Fitters.py:170-192 | The loop lists n1 windows of the kernel's width with the clamped starts |
| ConvWindows.WindowsDescend | scripts/python/Fitters.py:170-192 | Windows lie in the input, starts descend strictly, the first window ends the input and the last one starts it |
| ConvWindows.CoverageIff | scripts/python/Fitters.py:170-192 | For a kernel within the input the windows see every time column if and only if the stride is at most the kernel or the input at most two kernels |
| ConvWindows.NtreeListReachesTheModel | scripts/python/Fitters.py:492-496 | The list of tree counts ends with the full model, every entry is between 1 and it, and from eight trees on there are 8 to 15 entries |
| GapMarks.MarkGaps | cronjobs/webmon/DrawNquotes.h:21-51 | After the four passes a bin is 1 exactly when its source bin is empty and some earlier and some later source bin is active, else 0, for every histogram |
| GapMarks.GapsOfFive | cronjobs/webmon/DrawNquotes.h:21-51 | Of five bins the two empty ones between active ones are gaps, the empty last one is not |
| GapMarks.MarkEmpty | cronjobs/webmon/DrawNquotes.h:24-30 | Empty bins are marked, all others zeroed |
| GapMarks.UnmarkLeading | cronjobs/webmon/DrawNquotes.h:33-39 | The leading block is unmarked and nothing behind the first active bin |
| GapMarks.UnmarkTrailing | cronjobs/webmon/DrawNquotes.h:40-46 | The trailing block is unmarked and nothing before the last active bin |
| GapMarks.MarksToOnes | cronjobs/webmon/DrawNquotes.h:47-51 | Marks become ones |
| GapMarks.EmptyInsideIsGap | cronjobs/webmon/DrawNquotes.h:21-51 | Between the first and the last active bin the empty bins are exactly the gaps |

## Left out

- OrderBookSim.OrderBookSim.ReadAnOrder: prices and volumes are unbounded integers; `VolumeWithinAdds` and `IntervalFitsIff` say when 32 bits are enough. Reading past the end of the log, which the code does not check, is excluded by the precondition.
- OrderBookSim.OrderBookSim.GotoMsecs: a target no remaining order reaches makes the code read past its arrays; the method requires that one is left, and `JumpStopsAtFirst` says when that is.
- OrderBookSim.OrderBookSim.DrawBook: the first price of an empty side is an arbitrary number here, as it is undefined in the code. The division by an interval of zero is excluded by the precondition, and `SessionIsSafeIff` says when it is met. Histograms, labels, zoom ranges and canvases are not modelled.
- OrderBookSim.OrderBookSim.InitVars: the columns are parameters; reading the file, its end-of-file loop and its limit of a million records are left out, as is the file count.
- TickGrid.DistinctBinsIff: for positive prices; with a price at or below zero the bins are described by `IntervalDividesIff` and `GridIsExactIff` only.
- MatchingBook.BookOfOrders.Update: messages and `exit_on_negative_size_` are left out; a shortfall is reported by the result as in the default setting.
- BookUpdate.NeverCrossedWhileTrading: sessions count by their first open and last close, as `isAfterOpenBeforeClose` does; how sessions are read is left out.
- Auction.AuctionFindsBest: the 32-bit condition has a sufficient half (crossed volumes that fit) and a necessary one (`AuctionNeedsFit`); `AuctionNeverOverstates` holds for every book, and between the halves `WrappedSumsMissTheBest` and `WrappedSumsCanBeRight` show that wrapped sums may or may not mislead the scan; which of those do is not characterised. Volumes from 2^31 on are returned as negative integers.
- HeapSortIndex.HeapSort: the template is taken at real data and integer indices; NaN, which no order sorts, is left out.
- HeapSortIndex.Rank: the array form; the vector overload only adds the length test shown by `HeapSortVector`.
- SignalJoin.CompPred: tables and correlators are passed in and handed back as values; file names and the NV == 4 pair of files are left out.
- SignalJoin.CompSig: the keys handed to `fill_stat` are returned; its statistics, the excluded tickers and debug output are left out.
- EventStore.MEvent.Add: the object copied must not be the one it replaces, which the code deletes first. A copied object is immutable here; the pointer-storing overload, locking and the singleton are left out.
- WeekdayWalk.StepWeekdays: days are day numbers and weekdays follow from them; time zones, exchange calendars and database queries are left out.
- MonthList.GetYYYYMMs: today is a parameter, nYear a natural number; the year 9999 limit concerns dates after today only and is excluded by `LoopEndsBeforeToday`.
- TickHistory.Values: the one variable there is and an arbitrary list of its views; file sizes are a function of market and view, the catalogue is arbitrary, the fixed one an instance, and database access and pages are left out.
- MatchingBook.BookOfOrders.RemoveCrosses: the log is a list; counts of generated orders and their report are left out.
- Stats.Acc.Variance: the square root itself is not taken; rounding is not modelled.
- Tokenizer.Split: white space is that of the C locale.
- GapMarks.MarkGaps: bins count from 0; scaling and drawing are left out.
- Class headers without bodies, neural nets, tree libraries, database and plotting code: no behaviour to model here.
- `get_quote`, `get_ma`, `trim_series`: left out, they would add easier members of the same kinds.
