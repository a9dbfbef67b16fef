# Filecoin network simulator: the randomizer's deterministic core

This project models in Dafny the decision logic of the simulation driver in
`network/randomizer.go`. The driver grows a population of miner and client
nodes, picks random economic actions (asks, bids, deals, payments) on a timer,
and matches a client's bids against the miners' asks before it proposes a deal.
The model covers the parts that do not depend on goroutines, timers or daemon
calls:

- **Deal matcher** (`getBestDealPair`), in `dealmatcher.dfy`. It sorts the
  caller's ask and bid arrays in place: bids by ID, asks by price. It keeps the
  bids owned by the wallet. It returns the first (bid, ask) pair, bids
  outermost, in which the bid fits the ask (`bid.size <= ask.size` and
  `bid.price >= ask.price`), or `NoMatch`. `Seqs.SortBy` models the in-place
  `sort.Slice`. It promises only a sorted permutation, because Go's sort is not
  stable. The lemmas prove what holds for every such arrangement:
  - the pair belongs to the wallet and fits;
  - the bid has the lowest ID among the wallet bids that any ask can take;
  - the ask is a cheapest ask that takes that bid;
  - there is no pair exactly when no wallet bid fits any ask;
  - for unique bid IDs, the choice of bid and the price paid do not depend on
    how the sort arranged equal keys.
- **Order-book parsers** (`extractAsks`, `extractUnusedBids`, `extractDeals`),
  in `orderbook.dfy`, over `Text.Trim` / `Text.Split`. These model Go's
  `strings.Trim(s, "\n")` and `strings.Split(s, "\n")`, with `Text.Join` as
  their inverse. Decoding a line is a function the caller passes in.
- **Action set** (`NewRandomizer`), in `actions.dfy`: a `Randomizer` class
  whose constructor appends the enabled actions to its `actions` field, plus the
  scheduler's pick of one action per tick.
- **Population rules**, in `population.dfy`: the miner/client alternation of
  the initial nodes, the population cap of the growth tick, and
  `nextRandomType`.

`extractAsks` and `extractUnusedBids` reject every response that yields at most one line. That includes
a response holding exactly one record, even though the error text says
"No Asks yet" or "No Bids yet". The model keeps this behaviour, and
`OrderBook.SingleRecordRejected` proves it.

Prices (`AttoFIL`), sizes (`BytesAmount`) and IDs (`uint64`) are natural
numbers, because the code only compares them. Addresses are their string form. The
core never reads the fields of a deal record; `Orders.Deal` names them only so
that `extractDeals` has a result type.

## Model

| member | source | states |
|---|---|---|
| `DealMatcher.GetBestDealPair` | network/randomizer.go:377-416 | Afterwards the bids are a permutation of the old bids sorted by ID, and the asks a permutation sorted by price. The result is the first fit over the sorted asks and the wallet's sorted bids. A found bid is one of the caller's bids, owned by `wallet`, and fits the found ask. The bid has the lowest ID of any wallet bid that some ask can take. The ask has the lowest price of the asks the bid fits. `NoMatch` exactly when no wallet bid fits any ask. |
| `DealMatcher.CollectWalletBids` | network/randomizer.go:389-397 | Returns exactly the bids whose owner is `wallet`, in input order. |
| `DealMatcher.ScanPairs` | network/randomizer.go:399-414 | The nested loops with early return give the bid-major first-fit result, or `NoMatch` when they run out. |
| `DealMatcher.FirstFitAsk` | network/randomizer.go:402-407 | A returned ask is one of the asks and the bid fits it. There is none exactly when the bid fits no ask. |
| `DealMatcher.FirstFitAskEarliest` | network/randomizer.go:402-405 | The returned ask sits at some position, and the bid fits no ask before it: it is the first fitting ask in order. |
| `DealMatcher.FirstFit` | network/randomizer.go:399-414 | A found pair comes from the inputs and fits. `NoMatch` exactly when no bid has a fitting ask, which includes an empty bid list. |
| `DealMatcher.FirstFitAskCheapest` | network/randomizer.go:383-405 | Over price-sorted asks, the first fitting ask is priced at or below every ask the bid fits. |
| `DealMatcher.FirstFitEarliest` | network/randomizer.go:400-405 | The chosen bid sits at some position. Every bid before that position has no fitting ask, and the chosen ask is that bid's first fitting ask. |
| `DealMatcher.FirstFitLowestId` | network/randomizer.go:379-405 | Over ID-sorted bids, the chosen bid's ID is at most that of every bid with a fitting ask. |
| `DealMatcher.WalletBidsMembership` | network/randomizer.go:392-396 | A bid is among the wallet bids if and only if it is an input bid owned by `wallet`. |
| `DealMatcher.MatchSpec` | network/randomizer.go:377-416 | Over sorted inputs, the matcher's result has ownership, fit, lowest bid ID and cheapest ask. It reports no match exactly when no wallet bid fits any ask. |
| `DealMatcher.MatchUpToArrangement` | network/randomizer.go:379-386 | Take two sorted arrangements of the same asks and bids, with unique bid IDs. Both find a pair or neither does. Both choose the same bid, and the chosen asks have the same price. |
| `Seqs.SortBy` | network/randomizer.go:379-386 | In-place sort: afterwards the array is in nondecreasing key order and has the same multiset of elements. |
| `OrderBook.ExtractAsks` | network/randomizer.go:418-440 | Fails with "No Asks yet" exactly when the trimmed, split input has at most one line. Otherwise it returns one decoded ask per line, in line order. |
| `OrderBook.ExtractUnusedBids` | network/randomizer.go:442-466 | Fails with "No Bids yet" exactly when there is at most one line. Otherwise it returns the decoded lines without the used bids, in line order. No returned bid is used. |
| `OrderBook.ExtractDeals` | network/randomizer.go:468-487 | There is no length check. It returns one decoded deal per line, in line order. |
| `OrderBook.DecodeLines` | network/randomizer.go:429-438 | The decode-and-append loop of `extractAsks` (the same loop is at 476-485 in `extractDeals`): one value per line, the i-th from the i-th line. |
| `OrderBook.DecodeUnusedBids` | network/randomizer.go:452-464 | The decode loop of `extractUnusedBids` with its `continue`: exactly the decoded lines without the used bids, in line order. |
| `OrderBook.DecodeAll` | network/randomizer.go:476-485 | Reference definition of the decode loops: one decoded value per line, the i-th from the i-th line. |
| `OrderBook.RejectedIffNoInnerNewline` | network/randomizer.go:421-427 | A response is rejected exactly when its newline-trimmed text contains no newline. |
| `OrderBook.SingleRecordRejected` | network/randomizer.go:421-427 | A single record line, followed by any number of newlines, gives exactly one line, so `extractAsks` and `extractUnusedBids` reject it. |
| `OrderBook.LinesJoin` | network/randomizer.go:420-423 | The lines join back to the trimmed response and contain no newline. |
| `OrderBook.RecordsRoundTrip` | network/randomizer.go:420-423 | Newline-free records, the first and last non-empty, written one per line with any trailing newlines, give back exactly those records as lines. |
| `OrderBook.UnusedExactly` | network/randomizer.go:452-465 | A bid survives the filter if and only if it was decoded and is not used. Each unused bid keeps every copy it had. |
| `Text.Trim` | network/randomizer.go:421 | `strings.Trim(s, "\n")`: the result neither starts nor ends with a newline. |
| `Text.Split` | network/randomizer.go:423 | `strings.Split(s, "\n")`: always at least one piece (the empty string gives one empty piece). |
| `Text.SplitPieces` | network/randomizer.go:423 | No piece of a split contains a newline. |
| `Text.TrimShape` | network/randomizer.go:421 | Adds to `Trim`'s contract: the result is a slice of the input, and only newlines were cut from either end. |
| `Text.JoinSplit` | network/randomizer.go:423 | Joining the split pieces with newlines gives the input back. |
| `Text.SplitJoin` | network/randomizer.go:423 | Splitting newline-free pieces that were joined with newlines gives the pieces back. |
| `Text.SplitSingle` | network/randomizer.go:425 | The split has exactly one piece if and only if the text contains no newline. |
| `Actions.EnabledActions` | network/randomizer.go:64-72 | An action is in the set if and only if its flag is on, and `SendFile` never is. The actions appear once each, in the order Ask, Bid, Deal, Payment. |
| `Actions.EnabledActionsIgnoreMine` | network/randomizer.go:69-72 | The `Mine` flag does not change the action set, and `SendFile` is never in it. |
| `Actions.Randomizer.constructor` | network/randomizer.go:57-75 | Stores `a` and sets `actions` to exactly the enabled actions, in order. |
| `Actions.Randomizer.AddIf` | network/randomizer.go:64-68 | Appends the action to `actions` when the flag is on. Otherwise `actions` is unchanged. |
| `Actions.ActionTick` | network/randomizer.go:198-204 | An empty action set gives no action. Otherwise the tick gives an action from the set. |
| `Actions.ActionTickOneRollEach` | network/randomizer.go:203 | In a duplicate-free action set, each action is returned by some roll below the set's length and by no other roll, so a uniform draw gives a uniform pick. |
| `Actions.EnabledActionsDistinct` | network/randomizer.go:64-72 | The action set built from the flags has no duplicates, so the tick's pick over it is uniform. |
| `Actions.TickPicksEnabled` | network/randomizer.go:197-206 | An action drawn from a driver's action set is enabled, so it is never `SendFile`. |
| `Population.InitialTypes` | network/randomizer.go:115-119 | One type per initial index. Index `i` is a Miner if and only if `i` is even, and never `Any`. |
| `Population.AddInitialNodes` | network/randomizer.go:115-126 | Requests one node per index below `StartNodes`, with the alternating types. A negative count requests none. |
| `Population.InitialTypeCounts` | network/randomizer.go:115-119 | `N` initial nodes hold `ceil(N/2)` miners, `floor(N/2)` clients and no `Any`. |
| `Population.NextRandomType` | network/randomizer.go:103-110 | Client if and only if clients < 1.5 × miners over the reals, otherwise Any. A missing map key counts as zero. |
| `Population.GrowthTick` | network/randomizer.go:145-153 | No node is added if and only if the population is at or above `MaxNodes`. Otherwise one Client or Any node is requested: Client exactly when `2*clients < 3*miners`. |

## Left out

- Goroutines, `sync.WaitGroup` barriers, the `time.Sleep`-driven `periodic` loop and context cancellation (`Run`, `periodic`, `mineBlocks`, the loops' scheduling). These are concurrency and timing. `ActionTick` and `GrowthTick` model only the body of one tick.
- Every daemon or network call (`AddNode`, `ConnectNodeToAll`, `GetNodeCounts`, `Size`, `MiningOnce`, `WalletBalance`, `SendFilecoin`, `MinerAddAsk`, `ClientAddBid`, `ClientImport`, `ProposeDeal`, `randfile.RandomFile`). They are foreign calls with no visible semantics, so node counts and sizes are parameters, and the `Net` handle that `NewRandomizer` stores is not a field of the model's `Randomizer`. This also leaves out the action executors `doActionPayment`, `doActionAsk`, `doActionBid` and `doActionDeal`, the `doRandomAction` dispatch, and the connect-all loop of `addInitialNodes`.
- `rand.*` draws and the floating-point `rollToMine`. The action index is the parameter `roll`. The size and price ranges of the ask and bid actions are not modelled.
- JSON decoding: `decode` is an abstract total function per line. The `panic` on a malformed line, including the empty line that an empty response yields in `extractDeals`, is not modelled.
- `StructToString`, `StructToStringIndent`, `logErr` and all logging. The `fmt.Errorf` text of `getBestDealPair` collapses into the single `NoMatch` outcome.
- `filnetsim/main.go`: CLI flags, temp directory, log redirection and the HTTP server. It is I/O plumbing, and it builds a `Randomizer` with fields that `network/randomizer.go` does not declare.
- `Seqs.SortBy`: the model uses one particular in-place sort. Its contract promises only what `sort.Slice` promises, a sorted permutation. It does not model which arrangement of equal keys `sort.Slice` produces.
- `Population.NextRandomType`: the source compares `float64` values. The model compares exact integers, which agrees with the source while 3 × miners stays below 2^53 (miners below about 3·10^15) and clients below 2^53. That bound is sufficient, not necessary. Beyond it the two tests can disagree in either direction. With miners = 19116518545756563 and clients = 28674777818634845, Go answers Client and the model answers Any. With miners = 13602114452833489 and clients = 20403171679250233, Go answers Any and the model answers Client.
- Go's `int` width: `StartNodes`, `MaxNodes` and the sizes are unbounded integers here. No overflow is modelled.
