# Verified models of the Gradience chain tools

A Dafny 4.11 project that models the parts of the repository where a mistake costs money
or lets something through: swap quotes and pool search, the conversion between decimal text and raw
units, hand-written ABI calldata, the transfer policy with its audit log, the confirm
sessions of the EVM workflows, the autonomous LTV worker, and the symbol index and quote
ranking. `dafny verify dfyconfig.toml` checks everything.

## How the models are laid out

| files | what they model |
|---|---|
| `Outcomes`, `JsText`, `Numerals`, `Sorting`, `Scan` | shared ground: option and result types, JavaScript string operations, positional numerals in base 10 and 16, `Array.prototype.sort`, best-so-far scans |
| `DecimalText` | the decimal printers and parsers of the NEAR, Sui, EVM and LI.FI code |
| `AbiCalldata` | the word encoders and calldata builders, with an independent decoder written from the Solidity Contract ABI Specification, section "Formal Specification of the Encoding" |
| `SwapMath` | constant-product quotes, slippage, and the pool update a trade causes; the reference rule for the 997/1000 form is section 3.2.1 of the Uniswap v2 Core whitepaper |
| `RefPools`, `RefRouting`, `RefPairs`, `Paging` | Ref Finance pools, the token index, the search tiers, the choice of a pool for a pair, the paging loops |
| `LtvManager`, `WorkerMachine`, `AgentWorker` | the LTV decision, the worker registry as interleaved atomic steps, and the worker classes that carry the steps out in place |
| `PolicyMachine`, `TransferPolicy` | the versioned policy, its audit window, failing writes and restarts; the class that updates them |
| `SessionMachine`, `WorkflowSessions` | the analysis, simulate, execute sessions shared by the transfer and swap workflows; the class that holds them |
| `SymbolIndex`, `CacheMachine`, `TokenSymbolCache` | the Cetus symbol index, its cache with sharing of builds under way, and the class around it |
| `LifiPlanning` | scoring and ranking of LI.FI quotes |

Where the code changes state in place there are two layers. A `...Machine` module gives the
atomic steps as functions on a value and proves what every run keeps. A class with the
code's own fields performs the steps with assignments and loops, and each of its methods is
proved to move the abstract value by exactly that step. A step is a stretch of code between
two awaits, so calls, timers and restarts interleave freely.

Inputs that come from outside are parameters: RPC answers are fixed functions or listed
values, the clock and generated identifiers are arguments of the step that reads them,
a write to disk succeeds or fails as the event says. The clock of the symbol cache is
assumed not to run backwards.

## Results worth knowing about the code

Some promises hold only under a condition. The code is modelled as it is, and each condition
below is proved to be exact, with a run or an input that fails it where one is named.

- `DecodesExactly`: scalars of 2^256 and more are not refused by the word encoder, and the calldata
  decodes exactly without them; `SwapFraming` gives the effect on its length.
- `FormatAmountExactly`: the LI.FI printer agrees with the others exactly when no superfluous
  zero stands before the whole part of the digits given to it.
- `SlippageRounding`: the NEAR and the PancakeSwap minimum differ by one unit exactly when the
  tolerance is not a whole number of units.
- `ChosenIsListed`: the chosen pool is listed exactly when the candidate limit is at least 1; a limit
  strictly between 0 and 1 passes the check and lists no pool at all.
- `BurrowComplete`, `RefComplete`: a paging loop stops after one page, and so misses entries it asked for,
  exactly when the server answers fewer entries than the page size while more are wanted.
- `StableExactlyWhenSensible`: the worker holds at its target exactly when the target is at most 95% of
  the maximum; above, it decides to repay nothing again and again.
- `StoppedSendsExactlyWhenBusy`: a stopped worker can still send exactly while a cycle of it is in
  flight and it is not a dry run; `StoppedMayStillSend` is such a run.
- `OneCyclePerAccountExactly`: an account has at most one cycle in flight exactly when nobody starts it
  again while the stopped worker's cycle is in flight; `RestartOverlaps` is a run that does.
- `HitsAreWithinTtlExactly`: the time to live of the symbol index counts from the storing, so a hit can be
  older than it, exactly when there was a gap between the end of the build and the storing and the entry is
  still fresh; `HitOlderThanTtl` is such a run.
- `StartsOnlyWhenNeeded`: a call starts a build exactly when nothing fresh is stored and none of its key
  runs; a finished build is not yet a stored one, so `GapStartsSecondBuild`.
- `FollowUpSendsTheSession`: a run id of white space finds the latest session, but on a mainnet-like network
  it is refused without a token, because a new id is drawn (`BlankRunIdNeverMatches`).
- `LowerSlippageScoresNoLess`: lowering a slippage never lowers a quote's score except to exactly zero from
  one that rounds below 300 basis points, because zero is read as 3 percent; `ZeroSlippageScoresLess` is such
  a pair.

## Model

| member | source | states |
|---|---|---|
| Numerals.PrintValue | src/chains/near/runtime.ts:125-135 | printing a number and reading the digits back is the identity, without superfluous zeros, in base 10 and 16 |
| Numerals.CanonicalPrint | src/chains/near/runtime.ts:164-191 | a text without superfluous zeros is what its value prints as |
| JsText.TrimSplits | src/chains/near/runtime.ts:137-141 | trimming takes white space, and only white space, off both ends |
| DecimalText.DecimalShape | src/chains/near/runtime.ts:137-154 | splitting at the first dot accepts exactly the texts of the pattern digits, then perhaps a dot and digits |
| DecimalText.UnitsAreFloor | src/chains/evm/tools/execute.ts:892-920 | whole part times 10^d plus the clamped fraction is the floor of the text's worth times 10^d, whether digits are cut or added |
| DecimalText.FloorWithinOneUnit | index.ts:302-313 | the floor is below the exact worth by less than one unit |
| DecimalText.ParsersComputeFloor | src/chains/evm/tools/transfer-workflow.ts:505-529 | what each of four parsers returns for any text at all: the same floor, or its error, and which error when |
| DecimalText.ParsersAgree | src/chains/near/runtime.ts:137-154 | when a rejecting parser accepts a positive amount all four agree |
| DecimalText.ClampFractionDigits | src/chains/near/runtime.ts:156-162 | the floor of the number when that lies within the decimals, all decimals for a larger number or none that is finite, none for a negative one |
| DecimalText.SliceIsDivision | src/chains/evm/tools/lifi-read.ts:31-37 | cutting d digits off the end of a numeral is division by 10^d with the same stripped remainder |
| DecimalText.FormatUnitsDivides | src/chains/evm/tools/venus-adapter.ts:176-189 | the slicing printer of the Venus adapter equals the division printer for every amount and scale |
| DecimalText.FormatAmountExactly | src/chains/evm/tools/lifi-read.ts:31-37 | the LI.FI printer equals the division printer on a digit text if and only if it leaves no superfluous leading zero |
| DecimalText.PrintersAgree | src/chains/sui/runtime.ts:145-162 | five printers give one text for every amount and scale |
| DecimalText.FormatThenParse | src/chains/near/runtime.ts:164-191 | parsing what was printed with m digits gives the multiple of 10^(d-m) just below the amount |
| DecimalText.FormatThenParseExact | src/chains/near/runtime.ts:137-191 | with all digits printed, print then parse is the identity for 0 <= d <= 255 |
| DecimalText.FormatAllDigits | src/chains/near/runtime.ts:156-191 | asked for as many digits as there are decimals or more, or for no finite number, the printer gives the full text, which reads back as the amount |
| DecimalText.FormatNoDigits | src/chains/near/runtime.ts:156-191 | asked for a negative number of digits, it gives the whole part |
| DecimalText.FormatSomeDigits | src/chains/near/runtime.ts:156-191 | asked for a number from m up to below m + 1, with m below the decimals, it gives the canonical text of the amount rounded down to m digits |
| DecimalText.FormatAccepts | src/chains/near/runtime.ts:164-172 | which texts and decimals it refuses, and that the result depends on the amount's value alone |
| DecimalText.FormatShape | src/chains/near/runtime.ts:164-191 | the printed text is a decimal with at most m fraction digits, never ending in a dot or a fraction zero |
| DecimalText.ParseThenFormat | src/chains/near/runtime.ts:137-191 | parse then print gives the text back if and only if it has no superfluous zeros |
| DecimalText.NearRoundTrip | src/chains/near/runtime.ts:193-225 | formatNearAmount at 24 digits and the text case of toYoctoNear undo each other: any amount comes back, and a text read and printed comes back trimmed if and only if it has no superfluous zeros |
| AbiCalldata.UintWord | src/chains/evm/tools/execute.ts:335-353 | a word reads back as its scalar and is 64 digits long exactly for values below 2^256 |
| AbiCalldata.AddressWord | src/chains/evm/tools/venus-adapter.ts:107-125 | both address encoders give the same 64 digits and reading them back gives the address in lower case |
| AbiCalldata.AddressTail | src/chains/evm/tools/execute.ts:358-362 | the address read from a word, with or without its prefix, is its last 40 characters |
| AbiCalldata.WordOf | src/chains/evm/tools/execute.ts:388-441 | the word at byte offset 32 i of joined words is the i-th |
| AbiCalldata.ArrayOf | src/chains/evm/tools/execute.ts:362-368 | following an offset word to a length word and its items recovers a list of any length |
| AbiCalldata.DecodeFiveWordSwap | src/chains/evm/tools/execute.ts:388-441 | the decoder recovers every scalar, the path behind offset 0xa0 and the receiver |
| AbiCalldata.DecodeEthSwap | src/chains/evm/tools/execute.ts:407-424 | the same for the ETH swap with offset 0x80 |
| AbiCalldata.DecodeEnterMarkets | src/chains/evm/tools/venus-adapter.ts:490-507 | the same for enterMarkets with offset 0x20 and any number of markets |
| AbiCalldata.DecodeUndoesBuild | src/chains/evm/tools/execute.ts:388-441 | decoding any well-formed calldata gives the call back, addresses in lower case |
| AbiCalldata.BuildInjective | src/chains/evm/tools/execute.ts:388-441 | distinct calls have distinct calldata, up to the case of addresses |
| AbiCalldata.SelectorLeads | src/chains/evm/tools/execute.ts:388-441 | each call leads with its own function's selector |
| AbiCalldata.DecodesExactly | src/chains/evm/tools/execute.ts:388-441 | for all four builders, on the arguments their types admit, the calldata decodes to the call if and only if every scalar is below 2^256 |
| AbiCalldata.SwapFraming | src/chains/evm/tools/execute.ts:388-405 | in swapExactTokensForTokens only a negative scalar is refused, and the calldata has its fixed length if and only if all scalars fit 256 bits |
| SwapMath.OutIsLargest | src/chains/near/ref.ts:261-298 | the floored quotient is the largest output that keeps o (x + a) <= a y |
| SwapMath.SellKeepsProduct | src/chains/near/ref.ts:261-298 | a trade never lowers the product of the reserves, for both fee forms |
| SwapMath.RunKeepsProduct | src/chains/evm/tools/execute.ts:443-459 | nor does any run of trades in both directions |
| SwapMath.NoFreeLunch | src/chains/evm/tools/execute.ts:443-459 | no run of trades leaves the pool poorer in one token and no richer in the other |
| SwapMath.RoundTripLoses | src/chains/evm/tools/execute.ts:443-459 | swapping there and back returns at most the input |
| SwapMath.SplitTwo | src/chains/near/ref.ts:261-298 | out(d1) plus out(d2) on the updated pool is at most out(d1 + d2), for both fee forms |
| SwapMath.SplittingNeverWins | src/chains/near/ref.ts:261-298 | however many pieces an input is split into, they fetch at most what the whole does |
| SwapMath.V2QuoteIsLargest | src/chains/evm/tools/execute.ts:443-459 | an output passes the check of section 3.2.1 of Uniswap v2 Core if and only if it is at most the quote |
| SwapMath.RefQuoteIsLargest | src/chains/near/ref.ts:292-297 | an output keeps the product with the input after the floored fee if and only if it is at most the quote |
| SwapMath.ParseFeeBps | src/chains/near/ref.ts:250-255 | the whole basis points just below the fee, cut off at 0 and at the whole amount |
| SwapMath.ParseSlippageBps | src/chains/near/ref.ts:242-248 | an accepted tolerance is the whole number just below the one given and at most 5000 |
| SwapMath.AfterFeeIsFloor | src/chains/near/ref.ts:292-295 | the input after the fee is the largest whole amount that leaves the pool its share |
| SwapMath.SlippageRounding | src/chains/near/ref.ts:300-305 | the NEAR minimum is the largest amount within tolerance, the PancakeSwap one the smallest respecting it, and when they differ |
| SwapMath.QuotePancakeV2Swap | src/chains/evm/tools/execute.ts:528-616 | the quote passes the pool's check and one more unit fails it, the minimum is the rounded-up tolerance, and which error occurs when |
| Scan.SettleIsFirstBest | src/chains/near/ref.ts:1003-1034 | a best-so-far scan returns the first of the best hits, nothing when there is none, and throws exactly when a visited call throws |
| RefPools.FindIndex | src/chains/near/ref.ts:432-438 | the first place of a token, or that it is not listed |
| RefPools.ReserveIsRead | src/chains/near/ref.ts:432-438 | a reserve is known as v if and only if v is the number written at the first place of the token, unknown if and only if there is no amount there, malformed if and only if it is no number |
| RefPools.EstimateIsOffer | src/chains/near/ref.ts:261-298 | a positive estimate is e if and only if e is the most the pool can pay out of the reserve of the token sold for the reserve of the token bought, each read off the pool's lists |
| RefPools.EstimateIsLargest | src/chains/near/ref.ts:261-298 | on reserves x and y listed for the two tokens, each in its role, an output keeps the pool's product if and only if it is at most the estimate; an empty reserve yields nothing |
| RefPools.InPoolsWith | src/chains/near/ref.ts:418-430 | a pool is found through the index exactly when it is fetched and lists the token |
| RefPools.CollectPoolsByTokenId | src/chains/near/ref.ts:418-430 | the map built in place holds for every token the pools listing it, in order |
| RefRouting.ScanDirect | src/chains/near/ref.ts:1003-1034 | the nested loops of a direct tier settle on what a scan of all its visits settles on |
| RefRouting.ScanTwoHop | src/chains/near/ref.ts:1120-1223 | the five nested loops over the index settle on what a scan of all two-hop visits settles on |
| RefRouting.GetRefSwapQuote | src/chains/near/ref.ts:1003-1223 | the tiers are tried in order and the result is that of the specification function |
| RefRouting.DirectVisitsComplete | src/chains/near/ref.ts:1059-1095 | the loops of a direct tier visit exactly the routes a brute-force search would: candidate pool and token pairs with what the pool can pay out, or with what the contract answers |
| RefRouting.TwoHopVisitsComplete | src/chains/near/ref.ts:1120-1223 | the index-driven loops visit exactly the routes over all ordered pool pairs and middle tokens |
| RefRouting.DirectTierBest | src/chains/near/ref.ts:1003-1095 | a direct tier finds a maximal route in those terms, or there is none, or a read or a call throws |
| RefRouting.TwoHopTierBest | src/chains/near/ref.ts:1120-1223 | the same for two-hop routes |
| RefRouting.SearchIsBruteForce | src/chains/near/ref.ts:1003-1223 | the quote is the brute-force maximum of its tier, later tiers are reached only when earlier ones have no positive route, two-hop actions chain, and when it fails |
| RefRouting.DirectPoolQuote | src/chains/near/ref.ts:1059-1095 | a quote of the second tier is the contract's own answer for its pool and its two tokens in their roles, and the contract answers no more for any candidate |
| RefRouting.SimplePoolQuote | src/chains/near/ref.ts:1003-1034 | a quote of the first tier is the most its pool can pay out, and no output that keeps the product of any competing simple pool's reserves exceeds it |
| RefPairs.ResolveBestPairInPool | src/chains/near/ref.ts:451-486 | the nested loops settle on what a scan of all token pairs settles on |
| RefPairs.BestPairInPool | src/chains/near/ref.ts:451-486 | that is the supported pair with the largest product of reserves, or there is none |
| RefPairs.SupportsMeans | src/chains/near/ref.ts:440-449 | a pool supports a pair with a score if and only if both tokens have reserves at their first places and the score is their product |
| RefPairs.FindRefPoolForPair | src/chains/near/ref.ts:770-840 | collecting, sorting and cutting gives the specified selection |
| RefPairs.OutranksIsWeakOrder | src/chains/near/ref.ts:794-839 | the comparator orders pools consistently |
| RefPairs.SelectionIsTopK | src/chains/near/ref.ts:794-839 | the listing is the first k of all supporting pools by liquidity and id, no unlisted pool outranks a listed one, no supported pair outranks the chosen one |
| RefPairs.SelectionRanks | src/chains/near/ref.ts:234-240 | from the raw limit (three by default, at most ten): how many are listed, in order of liquidity descending and then id ascending, every listed one before every one left out, and the chosen one before every supported pair; when the limit is refused |
| RefPairs.NoPoolExactly | src/chains/near/ref.ts:794-839 | "no pool" is reported if and only if no fetched pool supports the pair |
| RefPairs.ChosenIsListed | src/chains/near/ref.ts:234-240 | the chosen pool is listed first if and only if the limit is at least 1 |
| Paging.FetchBurrowAssetsIndex | src/chains/near/burrow.ts:354-383 | the loop ends and returns exactly a prefix of the server's list, of the stated length |
| Paging.BurrowComplete | src/chains/near/burrow.ts:361-382 | that prefix is the first min(N, maxAssets) if and only if the server's cap is no obstacle |
| Paging.FetchRefPools | src/chains/near/ref.ts:570-639 | the loop ends and returns the well-formed entries among the first 40 pages, in order |
| Paging.RefComplete | src/chains/near/ref.ts:578-638 | the first 40 pages are read if and only if the server's cap is no obstacle, and the whole list if and only if, besides, it is no longer than that |
| Paging.PageLimit | src/chains/near/ref.ts:578 | between 1 and 300, 200 when not given |
| Paging.PoolsOfExact | src/chains/near/ref.ts:578-638 | a pool is returned if and only if a paged entry reads as it, with its own id or its place in the whole list |
| Paging.ReadPoolExactly | src/chains/near/ref.ts:604-634 | an entry is read as a pool if and only if each field is: own whole id or else the place, texts of tokens and amounts in order and at least two of each, own fee or zero, own kind |
| Paging.StringsKeepOrder | src/chains/near/ref.ts:606-615 | the texts of a list are kept in order, and nothing else |
| Sorting.SortSorts | src/chains/near/ref.ts:813-818 | sorting permutes and sorts for any consistent comparator |
| Sorting.SortedUnique | src/chains/evm/tools/lifi-planning.ts:335-346 | when distinct elements are always ordered, a multiset has one sorted listing |
| LtvManager.DecisionFromPosition | src/chains/evm/tools/ltv-manager.ts:138-207 | with collateral: repay if and only if not paused and above 95% of the maximum, borrow if and only if not paused, not above, below 80% of the target and with enough yield spread, and the exact amounts |
| LtvManager.DecisionWithoutCollateral | src/chains/evm/tools/ltv-manager.ts:84-207 | the same without collateral |
| LtvManager.PausedNeverActs | src/chains/evm/tools/ltv-manager.ts:142-150 | while paused, a run of any length never acts, whatever the position |
| LtvManager.ActionReachesTarget | src/chains/evm/tools/ltv-manager.ts:107-207 | an action applied in full changes the debt and puts the LTV exactly at target |
| LtvManager.HoldsExactlyInBand | src/chains/evm/tools/ltv-manager.ts:138-207 | after collateral moves by a factor g every decision is hold if and only if target/(0.95 max) <= g <= 1.25 |
| LtvManager.TargetIsStable | src/chains/evm/tools/ltv-manager.ts:138-207 | at target every later decision is hold whatever the rates do |
| LtvManager.ActsAtMostOnce | src/chains/evm/tools/ltv-manager.ts:138-207 | with fixed collateral a run of any length acts at most once |
| LtvManager.StableExactlyWhenSensible | src/chains/evm/tools/ltv-manager.ts:138-207 | the target is stable if and only if it is at most 95% of the maximum; otherwise repayments of nothing repeat |
| WorkerMachine.StartSets | src/chains/evm/tools/agent-worker.ts:540-592 | an accepted start puts, under its id, a running object with the mode and the error limit given and its first cycle in flight |
| WorkerMachine.DryStartNeverExecutes | src/chains/evm/tools/agent-worker.ts:278-340 | a worker started as a dry run executes nothing in any continuation |
| WorkerMachine.EndIsRecorded | src/chains/evm/tools/agent-worker.ts:224-387 | the end of a cycle leaves one log of that cycle: failed if and only if the reads failed, else with the decision, executed if and only if that was an action, sent, and no dry run |
| WorkerMachine.StepKeeps | src/chains/evm/tools/agent-worker.ts:212-394 | every step keeps the worker invariant |
| WorkerMachine.RunKeeps | src/chains/evm/tools/agent-worker.ts:212-681 | so does every interleaving of starts, stops, timers and cycle ends |
| WorkerMachine.RunningIsExclusive | src/chains/evm/tools/agent-worker.ts:540-592 | at most one running object per id, with exactly one of a pending timer or a cycle in flight, errors below the limit |
| WorkerMachine.LogsAreWindow | src/chains/evm/tools/agent-worker.ts:382-394 | the logs are the last 50 of the history, numbered without gaps, and only actions of a worker that is no dry run are executed |
| WorkerMachine.FailingLeavesRunning | src/chains/evm/tools/agent-worker.ts:348-394 | a worker whose reads all fail runs for fewer cycles than its limit; one never stopped runs exactly while its consecutive failures are below it |
| WorkerMachine.StopAllSilences | src/chains/evm/tools/agent-worker.ts:631-681 | after stop-all nothing runs and no timer is pending |
| WorkerMachine.NeverStartsAgain | src/chains/evm/tools/agent-worker.ts:212-394 | once not running, an object starts no cycle in any continuation; at most its cycle in flight still ends |
| WorkerMachine.StoppedSendsExactlyWhenBusy | src/chains/evm/tools/agent-worker.ts:631-681 | from any state, a worker that is not running can still execute an action in some continuation if and only if a cycle of it is in flight and it is not a dry run |
| WorkerMachine.StoppedMayStillSend | src/chains/evm/tools/agent-worker.ts:631-681 | a run that witnesses it: start, stop, and the stopped worker's cycle executes its action |
| WorkerMachine.OneCyclePerAccountExactly | src/chains/evm/tools/agent-worker.ts:540-592 | in a run no id ever has two cycles in flight if and only if no start is let through while a stopped worker of that id still has its cycle in flight |
| WorkerMachine.RestartOverlaps | src/chains/evm/tools/agent-worker.ts:540-592 | a run that overlaps: start, stop, start leaves two cycles of one account in flight |
| AgentWorker.WorkerPool.StartWorker | src/chains/evm/tools/agent-worker.ts:528-614 | the start tool makes exactly the start step, adds one fresh object, and throws when the id runs |
| AgentWorker.WorkerPool.EndCycle | src/chains/evm/tools/agent-worker.ts:212-394 | the end of runCycle makes exactly the end step, in place |
| AgentWorker.WorkerPool.FireTimer | src/chains/evm/tools/agent-worker.ts:388-393 | a timeout callback makes exactly the firing step |
| AgentWorker.WorkerPool.StopWorker | src/chains/evm/tools/agent-worker.ts:631-681 | stopping one id makes exactly the stop step |
| AgentWorker.WorkerPool.StopAllWorkers | src/chains/evm/tools/agent-worker.ts:631-681 | the loop over the registry stops all running objects in whatever order and counts them |
| PolicyMachine.ParseEvmAddressExactly | src/chains/evm/policy.ts:158-164 | an address is accepted if and only if, trimmed, it is 0x in either case and 40 hexadecimal digits, and it is kept in lower case |
| PolicyMachine.ParseAllNormal | src/chains/evm/policy.ts:158-164 | parsed recipients are in normal form and are exactly those given |
| JsText.DedupSame | src/chains/evm/policy.ts:183-216 | removing duplicates keeps exactly the elements and leaves a duplicate-free list alone |
| PolicyMachine.SanitizeSame | src/chains/evm/policy.ts:183-216 | sanitising a policy the code wrote changes nothing |
| PolicyMachine.SanitizeRepairs | src/chains/evm/policy.ts:183-216 | of any policy sanitising keeps the good version and time, exactly the recipients that are addresses, and the rest untouched |
| PolicyMachine.ReadStoredExactly | src/chains/evm/policy.ts:81-156 | which files are taken at all, and with what |
| PolicyMachine.ReadBack | src/chains/evm/policy.ts:218-260 | what the file holds is read back unchanged |
| PolicyMachine.StepKeeps | src/chains/evm/policy.ts:262-359 | every step, with a write that may fail and restarts, keeps the policy invariant |
| PolicyMachine.RunKeeps | src/chains/evm/policy.ts:262-359 | so does every run |
| PolicyMachine.AuditIsLinkedWindow | src/chains/evm/policy.ts:303-359 | the log is exactly the last min(200, n) records, they link, versions rise by one, the last one is in force |
| PolicyMachine.ReloadIsExact | src/chains/evm/policy.ts:218-296 | the file holds a past policy with its window, and a restart gives exactly that pair back |
| PolicyMachine.RejectedChangesNothing | src/chains/evm/policy.ts:314-359 | a change is rejected if and only if a named recipient is no address, and then nothing changes |
| PolicyMachine.RecipientsComeFromLastNaming | src/chains/evm/policy.ts:378-403 | the allowlist is that of the last surviving change that named or cleared recipients; templates never alter it |
| PolicyMachine.FieldsComeFromLastGiving | src/chains/evm/policy.ts:330-345 | mode, networks enforced on, updater and note in force are those given by the last surviving change that gave them, else the defaults; the version counts the changes |
| PolicyMachine.ChangeIsRecorded | src/chains/evm/policy.ts:346-358 | the record an accepted change leaves holds the change as made, between the policy that was in force and the one that now is |
| PolicyMachine.EnforcedAdmitsExactlyNamed | src/chains/evm/policy.ts:416-454 | an enforced check admits an address if and only if the last such change named it |
| PolicyMachine.CheckFromHistory | src/chains/evm/policy.ts:416-454 | what a check admits, from the surviving updates alone: everything while Open was given last or off the networks enforced on, else exactly the addresses named last |
| TransferPolicy.PolicyStore.GetState | src/chains/evm/policy.ts:262-282 | loads in place exactly as the step does and returns the policy in force |
| TransferPolicy.PolicyStore.GetAuditState | src/chains/evm/policy.ts:284-296 | the same for the audit log |
| TransferPolicy.PolicyStore.AppendAudit | src/chains/evm/policy.ts:303-312 | pushes, drops the oldest over 200, and persists when the write succeeds |
| TransferPolicy.PolicyStore.ApplyPolicyUpdate | src/chains/evm/policy.ts:314-359 | makes exactly the change step, keeps the invariant, and says when it throws |
| TransferPolicy.PolicyStore.ApplyTemplate | src/chains/evm/policy.ts:378-403 | never throws and makes exactly the change step of its template |
| TransferPolicy.Newest | src/chains/evm/policy.ts:405-414 | the newest records first, as many as asked for and there are |
| TransferPolicy.PolicyStore.AuditLog | src/chains/evm/policy.ts:405-414 | refuses limits outside 1 to 500 and otherwise returns the newest records first |
| TransferPolicy.PolicyStore.EvaluateTransfer | src/chains/evm/policy.ts:416-454 | the in-place check answers as Evaluate does on the loaded policy |
| SessionMachine.StepKeeps | src/chains/evm/tools/transfer-workflow.ts:912-1099 | every call and every completion of a preview or a send keeps the session invariant |
| SessionMachine.RunKeeps | src/chains/evm/tools/swap-workflow.ts:561-775 | so does every run of overlapping calls |
| SessionMachine.SendsAreConfirmed | src/chains/evm/tools/transfer-workflow.ts:1057-1073 | every mainnet-like send had the mainnet confirmation and its own token, or an earlier completed analysis or preview or token-confirmed send of the same run id, network and intent |
| SessionMachine.LatestIsFiled | src/chains/evm/tools/transfer-workflow.ts:537-545 | latestSession is always the map's entry for its own run id |
| SessionMachine.FollowUpSendsTheSession | src/chains/evm/tools/swap-workflow.ts:571-609 | a confirmed execute naming at most a run id sends exactly the session remembered under it, or last; it is refused if and only if the run id is non-empty but blank, on a mainnet-like network, and the id drawn instead is not the session's |
| SessionMachine.CallExactly | src/chains/evm/tools/transfer-workflow.ts:912-1099 | in every reachable state, what any call does, read off its parameters: which run id, network and intent it is about, when it is refused, what it remembers, waits for or sends |
| SessionMachine.NewIntentNeedsToken | src/chains/evm/tools/swap-workflow.ts:581-749 | a call that gives an intent is about that intent; without a token, on a mainnet-like network, it is refused when the remembered one differs |
| SessionMachine.TokenlessNeedsSameSession | src/chains/evm/tools/swap-workflow.ts:733-749 | without a token a mainnet-like execute goes through if and only if it is confirmed and the session found equals the one to be sent |
| SessionMachine.BlankRunIdNeverMatches | src/chains/evm/tools/transfer-workflow.ts:531-545 | a run id of white space reads the latest session but never executes it without a token |
| WorkflowSessions.Workflow.FindSession | src/chains/evm/tools/transfer-workflow.ts:542-545 | reads the session of a given run id, else the latest |
| WorkflowSessions.Workflow.CheckGate | src/chains/evm/tools/transfer-workflow.ts:1057-1073 | the gate as the code tests it, field by field, refuses exactly as specified |
| WorkflowSessions.Workflow.Begin | src/chains/evm/tools/transfer-workflow.ts:912-1099 | a call makes exactly its step in place and throws exactly when specified |
| WorkflowSessions.Workflow.End | src/chains/evm/tools/swap-workflow.ts:663-775 | a completion makes exactly its step: a preview is remembered even when it failed, a send only when submitted |
| SymbolIndex.CollectTypes | src/chains/sui/cetus-v2.ts:385-402 | the positional loop collects the known types in order and exactly the coin types in them |
| SymbolIndex.FallbackIsName | src/chains/sui/cetus-v2.ts:308-311 | without metadata the symbol of package::module::NAME is NAME trimmed, and a blank NAME gives the whole text |
| SymbolIndex.CollectSymbols | src/chains/sui/cetus-v2.ts:404-423 | metadata over fallbacks, in any order of arrival, gives each coin type its symbol |
| SymbolIndex.ResolveCetusFarmsPoolPairs | src/chains/sui/cetus-v2.ts:338-438 | the loops give the specified pairs |
| SymbolIndex.BuildTokenSymbolIndex | src/chains/sui/cetus-v2.ts:440-472 | the map filled in place is the specified index |
| SymbolIndex.IndexAgrees | src/chains/sui/cetus-v2.ts:440-472 | a symbol maps to a coin type if and only if some pair carries it, and to none twice |
| SymbolIndex.JoinIsById | src/chains/sui/cetus-v2.ts:385-402 | joining by position joins by pool id |
| SymbolIndex.PairsAreOfTheirPools | src/chains/sui/cetus-v2.ts:385-438 | the pairs are exactly those of the given pools whose type is known, each pool once, under its own id, with its own coin types and symbols |
| SymbolIndex.SameSymbolExactly | src/chains/sui/cetus-v2.ts:334-336 | two symbols are looked up alike if and only if, trimmed, they agree letter by letter up to case |
| SymbolIndex.LookupIsExact | src/chains/sui/cetus-v2.ts:338-516 | asked for a symbol, the index answers exactly the coin types of the given pools with that symbol, each once |
| CacheMachine.StepKeeps | src/chains/sui/cetus-v2.ts:474-502 | every step of a caller or a build keeps the cache invariant |
| CacheMachine.RunKeeps | src/chains/sui/cetus-v2.ts:474-502 | so does every interleaving |
| CacheMachine.OneBuildPerKey | src/chains/sui/cetus-v2.ts:484-495 | no two builds of one key run at once |
| CacheMachine.AnswersAreBuilt | src/chains/sui/cetus-v2.ts:474-502 | every answer is the index of a finished build of its key; from the cache, the build was done, then stored, then answered less than the time to live after the storing; shared, the build was done between question and answer; sharers get one index |
| CacheMachine.HitsAreWithinTtlExactly | src/chains/sui/cetus-v2.ts:496-501 | every hit on an entry comes less than the time to live after its build was done if and only if it was stored at once or is no longer fresh; otherwise it exceeds it by less than the gap |
| CacheMachine.HitOlderThanTtl | src/chains/sui/cetus-v2.ts:496-501 | a run with a hit one time to live after the build |
| CacheMachine.FailedBuildLeavesNoTrace | src/chains/sui/cetus-v2.ts:489-502 | in every continuation a failed build stays failed and holds no slot, no cache entry and no answer comes from it, and its callers go on without changing either |
| CacheMachine.StartsOnlyWhenNeeded | src/chains/sui/cetus-v2.ts:478-495 | a call starts a build if and only if nothing fresh is stored and none of its key runs |
| CacheMachine.GapStartsSecondBuild | src/chains/sui/cetus-v2.ts:489-502 | a run in which a call between the end of a build and its storing starts a second one |
| TokenSymbolCache.SymbolCache.GetTokenSymbolIndex | src/chains/sui/cetus-v2.ts:474-496 | a call makes exactly its step: answer, join or start |
| TokenSymbolCache.SymbolCache.SettleBuild | src/chains/sui/cetus-v2.ts:489-494 | the finally handler makes exactly its step |
| TokenSymbolCache.SymbolCache.ResumeCaller | src/chains/sui/cetus-v2.ts:496-501 | a caller going on stores only if it started the build, and returns the build's outcome |
| LifiPlanning.NoWorseScoresNoLess | src/chains/evm/tools/lifi-planning.ts:217-262 | a quote nowhere worse than another never scores less |
| LifiPlanning.LowerSlippageScoresNoLess | src/chains/evm/tools/lifi-planning.ts:230-232 | lower slippage never scores less, if and only if it is not lowered to zero from below 300 basis points |
| LifiPlanning.ZeroSlippageScoresLess | src/chains/evm/tools/lifi-planning.ts:230-232 | the exception occurs |
| LifiPlanning.ComparatorIsTotal | src/chains/evm/tools/lifi-planning.ts:335-346 | the comparator is an antisymmetric strict order separating any two candidates of different orders |
| LifiPlanning.ComparatorIsLexicographic | src/chains/evm/tools/lifi-planning.ts:335-346 | one candidate does not come after another if and only if it has the higher score, or as much and less cost, fewer hops, less time, or an earlier name, in that order |
| LifiPlanning.SequenceAsksAllOnce | src/chains/evm/tools/lifi-planning.ts:307-312 | each order is asked exactly once, the preferred one first |
| LifiPlanning.RankingIgnoresPreference | src/chains/evm/tools/lifi-planning.ts:300-348 | for fixed answers the sorted list and the selected route are the same for every preferred order |
| LifiPlanning.PlanLifiQuoteRoutes | src/chains/evm/tools/lifi-planning.ts:300-365 | the selected quote has the maximal score and among equals the least cost, then hops, then time, then name; successes and failures make four attempts, and it throws only when all fail, with the first error |

## Left out

- HTTP, RPC, SDK calls, signing, key files, environment parsing, webhooks: foreign effects, present only as fixed functions or as steps that succeed or fail.
- Text extraction of intents from prose, JSON parsing, summary lines and tool schemas: the parsed parameters are inputs.
- SessionMachine.SendsAreConfirmed: the confirm token is an arbitrary function of run id, network and intent, so nothing is claimed about collisions of the shortened SHA-256.
- Normalising of intents (address and amount checks of the workflows) is a function given with the call; intents are compared as values where the code compares their JSON.
- RPC url and private key remembered in a session: they do not enter the confirmation.
- LifiPlanning.PlanLifiQuoteRoutes: scores are integers and the slippage is a real, so IEEE rounding and NaN are not modelled; rationale and risk hints are text.
- LtvManager.DecideLtvAction: reals stand for doubles, so no rounding near the thresholds.
- RefRouting.GetRefSwapQuote: the branch with a pool named by the caller, the resolution of token symbols and the aggregate of the registry are not modelled; the slippage check comes before the search as an argument in basis points.
- RefPairs.FindRefPoolForPair: the branch with a named pool and the resolution of symbols are not modelled.
- DecimalText.ParseScaledDecimal: the number-typed input of toYoctoNear and of parseDecimalToUnits is not modelled, only texts.
- DecimalText.FormatTokenAmount: a negative amount cannot occur, its digits are parsed first.
- JsText.ToLower and JsText.ToUpper act on the ASCII letters only; other letters keep their form.
- SymbolIndex.ResolveCetusFarmsPoolPairs: the parsing of a Move type and the node's answers are inputs, the displayed pair symbol is not kept, and maps filled with fresh keys are sequences.
- CacheMachine: which microtask runs first is left open, so more interleavings are admitted than the event loop produces.
- AgentWorker.WorkerPool.EndCycle: the reads of a cycle, its transactions and the webhook are one outcome of the step; the intermediate awaits between a decision and its transactions are not separate steps.
- `clearAllWorkers`, a test helper that drops workers without stopping them, is not a step.
- TransferPolicy.PolicyStore.GetState: the invariants speak only of files the code itself wrote; what is read from others is stated by ReadStoredExactly and SanitizeRepairs. Several processes on one file and the old file format holding a bare policy are not modelled.
- Morpho calldata with a trailing bytes argument: its offsets do not follow the ABI head size, so no decoding is claimed.
- `Array.prototype.sort` is a stable insertion sort; for the comparators here the sorted list is the only one there is, or any is allowed.
- The Solana runtime, strategy runner, MCP adapters and registries, run-mode hints, the hyperliquid policy, extensions, toolsets and the web page: wrapping and wiring with easy members.
