# A verified model of the Mouss Tec platform's stateful cores

The repository is a multi-tenant Django and Celery platform for car workshops and print shops.  This
project models, in Dafny 4.11, the parts of it that are state machines, text transformations or exact
arithmetic, and proves what they promise over all inputs and all runs.  `dafny verify dfyconfig.toml`
checks everything.

Code that changes stored state is modelled twice: as a class with the same fields, branches and loops, and
as functions on values that the class's methods are proved to compute.  The results about whole runs are
lemmas about those functions.

| file | what it models |
|---|---|
| `CircuitBreaker.dfy` | the breaker of `erp_core/orchestrator.py`, calls one after another: its three Redis keys with their lifetimes, the call history they refine, and the documented automaton |
| `BreakerInterleaving.dfy` | the same breaker with any number of workers, one cache command at a time |
| `BreakerCounting.dfy`, `BreakerLateTrips.dfy`, `BreakerProbes.dfy`, `BreakerRuns.dfy` | what the workers do to each other: lost increments, trips after a success, probes at the same time; building runs |
| `DeadLetterQueue.dfy`, `AgentRunner.dfy` | the bounded dead-letter list, sequential and command by command; `run_agent_safely` on both |
| `Json.dfy`, `ScriptEscaping.dfy`, `JsonRoundTrip.dfy` | RFC 8259 reading and printing; `script_json` |
| `Utf8.dfy`, `Texts.dfy`, `EventStream.dfy`, `StreamEvents.dfy` | RFC 3629 decoding; trimming; `stream_llm_text`; what its lines mean, and that it reads what a server sends |
| `AwardScoring.dfy`, `TrustScores.dfy`, `Bidding.dfy`, `Options.dfy` | reverse auctions: scoring, the sellers' trust, and the bid's life under watchdog, offers, award deliveries and escrow |
| `AwardOutcomes.dfy` | what an auction comes to: who wins, how much is held and when, which offer counts |
| `MarketSync.dfy` | the shared parts market kept in step with the merchants' stock |
| `Billing.dfy` | the nightly warnings and suspensions |
| `Attendance.dfy`, `AttendanceHistory.dfy` | attendance days against holidays and leaves; the table as a function of its history |
| `EmployeeNumbers.dfy`, `Decimals.dfy` | generated employee ids; decimal numerals |
| `ObdReplay.dfy`, `ObdAcceptance.dfy` | OBD device authentication and the nonce table that forgets; what is let in, and what a suspension still lets in |
| `VatBreakdown.dfy`, `Base64.dfy`, `TaxInvoiceQr.dfy` | the VAT split and the tax-invoice QR text |
| `RateLimiter.dfy` | the in-memory fallback rate limiter |
| `Subdomains.dfy` | cleaning a requested address, its schema and its domain |

## What turned out false, and what is true instead

Each of these is proved with the exact condition under which the code does what was promised, and most
with an input or a run on which it does not.

- **Breaker documentation** (`erp_core/orchestrator.py:46-50`).  The counter and the failure time expire
  after 3600 s, so a failed HALF_OPEN probe that comes 3600 s or more after the failure before it does not
  re-open the circuit (`CutStreakExact`, `CutStreakHappens`; `CutStreakIsVisible` gives a continuation on
  which the code runs a call the documentation refuses), and a recovery timeout above 3600 s is cut to
  3600 s (`IsolationEnds`).
- **Lost increments.**  A worker's store counts on from the counter if and only if, since its read, nobody
  wrote the counter and it did not expire, or it read 0 at both moments (`CountsOnExact`); over a run the
  counter is that of atomic increments if and only if this holds of every worker (`NoIncrementLostExact`).
  `LostIncrement` is a run in which two failures do not trip a threshold of two.
- **Trips after a success.**  A trip counts a failure from before the last success if and only if a call
  behind it was in the middle of recording its failure at the reset; all of it is from before the reset if
  and only if the tripping worker read the counter before it (`LateTripExact`).  Right after a success such
  a trip can still come if and only if some worker has yet to store its count, or holds a stored count that
  reaches the threshold (`LateTripAheadExact`).  `LateTrip` is such a run; `LateRead` shows that having
  failed before the reset is not enough.
- **One probe** (`erp_core/orchestrator.py:35`).  Any number of workers can probe at once (`ManyProbes`).  A
  probe breaks into a fresh isolation, that is, overwrites an OPEN whose timeout is still running, if and only
  if the last write of the state was a trip and a failure has been stamped since the worker looked, less than
  min(recovery timeout, 3600) s ago (`LateProbeExact`).  `LateProbe` is such a run.
- **`script_json`.**  With ASCII output, a string with a high surrogate directly before a low one reads back
  with the pair joined; in every other case the value is exact (`RoundTripExact`, `JoinedPair`).
- **`stream_llm_text`.**  A last line that no newline ends is never read.  Reading all of the split body gives
  the same if and only if reading has stopped before or that line yields nothing (`LastLineExact`, `UnreadLine`).
- **OBD replay protection.**  A retention of two windows is not enough, because the clock is truncated to
  seconds: the retention must exceed two windows (`DefaultsOutlast`, `ReplayProtectionExact`).
- **OBD secret rotation.**  A message signed with the old secret can still be accepted after a rotation if and
  only if it had been checked before and was waiting for its nonce to be recorded (`RotationExact`).
- **OBD suspension.**  A message of a suspended or revoked device can be accepted before the device is made
  active again if and only if it had been checked before and was waiting to be recorded (`SuspensionExact`).
- **Leave requests.**  Withdrawing, moving or shortening an approved leave leaves its days excused; the
  tables agree after a save if and only if no day is left behind (`SaveLeaveExact`, `WithdrawnLeave`).
  Deleting one does too: they agree if and only if no such day loses its last approved leave
  (`DeleteLeaveExact`, `DeletedLeave`).
- **VAT split.**  The parts add up if and only if the total is whole piastres or the rate is not positive
  (`PartsAddUp`, `HalfPiastre`).
- **Employee ids.**  The greatest id is found in string order.  A taken id is proposed if and only if an id
  whose number is all nines and its successor are both in use and no other id begins with those nines
  (`TakenExact`): in a department with numbers up to 99989, while 9999 and 10000 are both in use
  (`BlockedBelow`).  Numbering without gaps gets there at 10000 (`NumbersRunOut`), and deleting 9999 ends it.
  After five attempts the row is saved with a blank id where a comment says it raises (`EmployeeTable.Save`).
- **Market sync.**  Changing a listed product's part number or condition leaves its listing behind,
  with nothing to take it down (`TidyExact`, `OnlyRekeyingLeavesBehind`, `RekeyedListing`); so does a deletion
  whose removal message the broker loses.  Only a saved stock row sends a sync: renaming, rebranding or
  deactivating a published listed product with no message on its way leaves the listing stale, as does a
  change of stock whose message is lost, and once the queue is empty the market is wrong about a product if
  and only if such a step left it so (`DrainedExact`, `OnlyEditsLeaveStale`, `RenamedListing`).  Deleting one branch's stock row takes down the whole listing
  (`OneBranchTakesTheListingDown`): without approvals a slot is listed if and only if it was and no removal,
  no sync of a product not to be shown and no unpublishing took it down (`ListedExact`).
- **Billing.**  On a day of more than 24 hours a repeated run can send a warning again (`ResentExact`,
  `LongDayResends`).
- **Addresses.**  The form accepts names that begin with `pg-`, whose schemas PostgreSQL keeps for itself
  (`SchemaUsableExact`, `PgNameAccepted`), so that the sign-up fails (`AcceptedIsTheAddress`).

## Modelling decisions

- Every external outcome is an input: whether a protected function fails, a task or a message can be queued,
  an e-mail raises or the audit log can be written.
- Clocks are non-decreasing where a run needs it: integers (seconds; microseconds for the OBD gate), reals
  for the rate limiter, day numbers for dates.
- Decimal and float amounts are exact rationals or whole piastres.
- HMAC is an injective keyed function; the JSON of a stream event is an arbitrary function from its text to a
  piece of text, nothing, or an uncaught error; `str.lower` is arbitrary outside ASCII.
- JSON numbers are kept as lexemes.
- Cache keys are those of one schema, as the platform prefixes them per tenant.

## Model

| member | source | states |
|---|---|---|
| `CircuitBreaker.CircuitBreaker.constructor` | erp_core/orchestrator.py:69-75 | a new breaker starts with no key set |
| `CircuitBreaker.CircuitBreaker.State` | erp_core/orchestrator.py:78-90 | reading the state may write HALF_OPEN, once the recovery timeout has passed since the last stored failure time |
| `CircuitBreaker.CircuitBreaker.RecordSuccess` | erp_core/orchestrator.py:95-98 | a success closes and zeroes, without lifetimes, and leaves the failure time |
| `CircuitBreaker.CircuitBreaker.RecordFailure` | erp_core/orchestrator.py:100-115 | a failure counts on from the live counter, renews both lifetimes and opens at the threshold |
| `CircuitBreaker.CircuitBreaker.Invoke` | erp_core/orchestrator.py:118-130 | one call: refused while OPEN; success and failure recorded, a nested CircuitOpenError not |
| `CircuitBreaker.Play` | erp_core/orchestrator.py:118-130 | the object played over a run computes the keys and the executed calls of the specification |
| `CircuitBreaker.CallTells` | erp_core/orchestrator.py:78-130 | one call keeps the keys equal to what the history says, and runs exactly when the history admits it |
| `CircuitBreaker.KeysRefineHistory` | erp_core/orchestrator.py:78-130 | over every run the keys refine the history: live counter = trailing failures less than 3600 s apart, OPEN exactly after a tripping failure |
| `CircuitBreaker.FailureOpensExactlyAtThreshold` | erp_core/orchestrator.py:100-110 | a failure writes OPEN if and only if the trailing streak reaches the threshold with it |
| `CircuitBreaker.IsolationEnds` | erp_core/orchestrator.py:78-86 | after tripping, a call runs if and only if min(recovery timeout, 3600) s have passed since the failure |
| `CircuitBreaker.CallStands` | erp_core/orchestrator.py:46-50 | one call keeps keys and documented state together while no streak is cut by expiry |
| `CircuitBreaker.FollowsDocumentation` | erp_core/orchestrator.py:46-50 | over every run without a cut streak (or with threshold 1) the code decides as the documented automaton |
| `CircuitBreaker.CutStreakExact` | erp_core/orchestrator.py:46-50 | a failure keeps to the documentation if and only if the failure before it has not expired, or one failure trips |
| `CircuitBreaker.CutStreakHappens` | erp_core/orchestrator.py:100-106 | failures at 100 s and 4000 s with threshold two: documented OPEN, code not |
| `CircuitBreaker.CutStreakIsVisible` | erp_core/orchestrator.py:100-106 | after a cut streak some continuation runs a call that the documentation refuses |
| `BreakerInterleaving.SoloIsSequential` | erp_core/orchestrator.py:78-130 | the small steps of an undisturbed worker add up to one call of the sequential breaker |
| `BreakerInterleaving.ActKeeps` | erp_core/orchestrator.py:78-115 | each single cache command keeps the stored and the local counts witnessed |
| `BreakerInterleaving.RunKeepsInv` | erp_core/orchestrator.py:78-115 | every interleaving of any number of workers keeps the invariant |
| `BreakerInterleaving.StoredCountIsWitnessed` | erp_core/orchestrator.py:100-103 | under every interleaving a stored count n stands for n distinct failing calls, each counted on from the one before while that was alive |
| `BreakerInterleaving.OpenIsWitnessed` | erp_core/orchestrator.py:105-106 | under every interleaving OPEN is written only after `failure_threshold` distinct failures |
| `BreakerCounting.CountsOnExact` | erp_core/orchestrator.py:101-102 | a store counts on from the counter if and only if nobody wrote it and it did not expire since the worker's read, or it read 0 at both moments |
| `BreakerCounting.NoIncrementLostExact` | erp_core/orchestrator.py:95-103 | over a run the calls behind the counter are those of atomic increments, at every moment, if and only if every worker was undisturbed |
| `BreakerCounting.UndisturbedCount` | erp_core/orchestrator.py:100-103 | then the stored value is the number of failures since the last reset or expiry |
| `BreakerRuns.LostIncrement` | erp_core/orchestrator.py:101-102 | a run that shows it: two failures, threshold two, no trip |
| `BreakerLateTrips.LateTripExact` | erp_core/orchestrator.py:95-106 | a trip counts a failure from before the last reset if and only if a call behind it straddles the reset, and only such failures if and only if the tripping worker read before it; otherwise at least `failure_threshold` failures were counted since |
| `BreakerLateTrips.LateTripAheadExact` | erp_core/orchestrator.py:95-106 | right after a reset such a trip can still come if and only if some worker has yet to store its count, or holds a stored count that reaches the threshold |
| `BreakerLateTrips.LateTrip` | erp_core/orchestrator.py:95-106 | a run that shows it: from the CLOSED of a success to OPEN with no new failure |
| `BreakerLateTrips.LateRead` | erp_core/orchestrator.py:95-106 | a call that failed before the reset and reads the counter after it is not stale, though no function has failed since |
| `BreakerProbes.ManyProbes` | erp_core/orchestrator.py:78-93 | once the timeout has passed, any number of workers can run the function in HALF_OPEN at once |
| `BreakerProbes.LateProbeExact` | erp_core/orchestrator.py:81-85 | a worker that saw the timeout passed overwrites an OPEN whose timeout is still running if and only if the last write of the state was a trip and a failure was stamped since the worker looked, less than min(recovery timeout, 3600) s ago |
| `BreakerProbes.TimeoutRunsAgain` | erp_core/orchestrator.py:81-85 | whatever the state by then, the timeout that the worker found passed is running again if and only if a failure was stamped since, less than min(recovery timeout, 3600) s ago |
| `BreakerProbes.LateProbe` | erp_core/orchestrator.py:81-85 | a run that shows it: the circuit opens anew and a worker that had found the old timeout passed runs the function |
| `DeadLetterQueue.DeadLetterQueue.Push` | erp_core/orchestrator.py:160-179 | a push alone puts the entry in front, drops only the oldest, and leaves at most 1000 |
| `DeadLetterQueue.DeadLetterQueue.Pop` | erp_core/orchestrator.py:196-204 | a pop removes the oldest entry, or nothing from an empty list |
| `DeadLetterQueue.DeadLetterQueue.Peek` | erp_core/orchestrator.py:181-188 | the newest entries; a count of 0 returns the whole list |
| `DeadLetterQueue.TrimKeepsWindow` | erp_core/orchestrator.py:172-172 | a trim evicts only entries behind 1000 newer ones and leaves at most 1000 |
| `DeadLetterQueue.CommandKeepsWindow` | erp_core/orchestrator.py:160-204 | each Redis command keeps the list a contiguous window of the push history and its length within 1000 plus the pushes in progress |
| `DeadLetterQueue.EveryRunKeepsWindow` | erp_core/orchestrator.py:160-204 | the same over every interleaving of pushes and pops |
| `DeadLetterQueue.NothingLost` | erp_core/orchestrator.py:160-204 | pushed = popped + evicted + present, as multisets |
| `AgentRunner.RunAgentSafely` | erp_core/orchestrator.py:439-495 | skipped while OPEN; otherwise the outcome is recorded and exactly a failure is dead-lettered |
| `AgentRunner.DeadLettersStep` | erp_core/orchestrator.py:471-495 | one more call puts itself in front of the dead letters if and only if it ran and failed |
| `AgentRunner.PlayAll` | erp_core/orchestrator.py:439-495 | over every run the dead letters are the newest 1000 failures among the calls the history admits, newest first |
| `ScriptEscaping.EscapeIsSafe` | erp_core/script_json.py:10-14 | the output holds no `<`, `>` or `&` |
| `ScriptEscaping.EscapeString` | erp_core/script_json.py:10-14 | the translation keeps what a string literal means, also behind escaped backslashes and between surrogate halves |
| `ScriptEscaping.EscapeKeepsMeaning` | erp_core/script_json.py:10-14 | any text that parses, printed with whatever options, parses to the same value after the translation |
| `JsonRoundTrip.PrintedStringReads` | erp_core/script_json.py:13-14 | every printed string reads back, up to joined surrogate pairs |
| `JsonRoundTrip.PrintedReads` | erp_core/script_json.py:13-14 | every printed value reads back from the front of any text |
| `JsonRoundTrip.ScriptJsonReadsBack` | erp_core/script_json.py:13-14 | what `script_json` writes is safe and parses to the value, up to joined surrogate pairs |
| `JsonRoundTrip.MergedExact` | erp_core/script_json.py:13-14 | a string reads back unchanged from ASCII output if and only if it holds no split pair |
| `JsonRoundTrip.RoundTripExact` | erp_core/script_json.py:13-14 | the round trip is exact if and only if the output is not ASCII or no string holds a split pair |
| `JsonRoundTrip.JoinedPair` | erp_core/script_json.py:13-14 | any pair of surrogates in a string comes back from ASCII output as one character |
| `JsonRoundTrip.ScriptJsonAscii` | erp_core/script_json.py:13-14 | with ASCII output nothing but printable ASCII is written |
| `JsonRoundTrip.PlainTextStays` | erp_core/script_json.py:13-14 | without it every other character is written as it is |
| `Utf8.EncodeRoundTrip` | erp_core/einvoice.py:29-29 | encoding is valid UTF-8 and decoding undoes it |
| `Utf8.DecodeAroundNewline` | inventory/ai_services.py:184-185 | decoding, with bad bytes dropped, and validity go piece by piece around a newline byte |
| `Utf8.ValidExact` | inventory/ai_services.py:185-185 | a byte string is valid if and only if it is the encoding of some text, which is what it decodes to |
| `Utf8.BadByteDropped` | inventory/ai_services.py:185-185 | a byte after good text that begins no character is dropped, and nothing else is |
| `EventStream.LinesExtend` | inventory/ai_services.py:179-184 | more bytes extend the lines and never change a line already cut |
| `EventStream.ReadAppend` | inventory/ai_services.py:183-197 | later lines add pieces, and nothing after `[DONE]` or an uncaught error |
| `EventStream.BodyExtends` | inventory/ai_services.py:178-197 | reading may stop anywhere and go on with the kept remainder |
| `EventStream.TakeLines` | inventory/ai_services.py:183-197 | the inner loop yields what the complete lines hold and keeps exactly the remainder |
| `EventStream.StreamText` | inventory/ai_services.py:178-197 | for every chunking the pieces and the ending are those of the newline-terminated lines of the whole body, read at once |
| `EventStream.LastLineExact` | inventory/ai_services.py:179-197 | reading the unterminated last line too would change nothing if and only if reading had stopped before or that line yields nothing |
| `EventStream.UnreadLine` | inventory/ai_services.py:179-197 | a body that ends in a data line without a newline, whose piece is never read |
| `EventStream.FirstChunks` | inventory/ai_services.py:179-200 | a connection that breaks has yielded a prefix of the full answer |
| `EventStream.DecodeLinewise` | inventory/ai_services.py:183-185 | decoding line by line gives the lines of the decoded body, for every body |
| `EventStream.ValidLinewise` | inventory/ai_services.py:183-185 | a body is valid UTF-8 if and only if each line and the remainder are |
| `StreamEvents.LineExact` | inventory/ai_services.py:185-197 | a line ends the reading if and only if it carries `[DONE]`, yields a piece if and only if it carries data with that text, and fails if and only if its data raises; a line without `data:` does nothing |
| `StreamEvents.DoneStops` | inventory/ai_services.py:189-190 | the end marker ends the reading with the pieces so far, whatever follows |
| `StreamEvents.ServedReads` | inventory/ai_services.py:178-197 | the events a server sends, closed by the end marker, come out as exactly their pieces in order, whatever follows |
| `AwardScoring.SortSorts` | clients/tasks.py:547-547 | the sort is descending and keeps every offer |
| `AwardScoring.SortPicks` | clients/tasks.py:547-548 | the stable sort puts the first of the best offers in front |
| `AwardScoring.BestWins` | clients/tasks.py:538-548 | the chosen offer has the greatest score, and those before it a smaller one |
| `AwardScoring.PickWinner` | clients/tasks.py:538-548 | the scoring loop picks that offer |
| `AwardScoring.WinnerUnique` | clients/tasks.py:541-548 | there is exactly one such offer |
| `AwardScoring.DominatorScoresMore` | clients/tasks.py:542-544 | an offer no dearer and no less trusted, one strictly, scores strictly more |
| `AwardScoring.WinnerNotDominated` | clients/tasks.py:541-548 | the winner is never Pareto-dominated |
| `AwardScoring.TiesGoToTheCheapest` | clients/tasks.py:525-548 | among equal scores the cheaper offer wins |
| `AwardScoring.PriceOfTrust` | clients/tasks.py:541-548 | the winner costs at most one percent of the base more for each point of trust it has over the cheapest |
| `AwardScoring.WinningPriceBound` | clients/tasks.py:541-548 | with trust in 1..100 the winning price is at most cheapest + 0.99 max(cheapest, 1) |
| `TrustScores.Board.UpdateScores` | clients/tasks.py:301-355 | the job rescoring every active seller, touching nobody else, and counting the newly flagged |
| `TrustScores.NewlyFlaggedExact` | clients/tasks.py:333-338 | the job counts the sellers that were not flagged before and are now |
| `TrustScores.PaceExact` | clients/tasks.py:313-326 | busy above five deals a month, idle below one half after three months, for an account of at least one month |
| `TrustScores.BanExact` | clients/tasks.py:309-338 | a seller is flagged if and only if the dispute rate has reached 23.67, 20.34 or 18.67 percent (busy, ordinary, idle) |
| `TrustScores.RefundsUntilBan` | clients/models/marketplace_b2b.py:206-211 | a seller without disputes is banned by the next job after more than 15, 13 or 12 refunds |
| `TrustScores.ScoreMonotone` | clients/tasks.py:309-329 | more disputes never raise a score, more deals never lower it |
| `TrustScores.TrustDrift` | clients/models/marketplace_b2b.py:171-175 | over every run of jobs, deals and refunds a score leaves 1..100 by at most 2 a deal and 10 a refund; a flag stays |
| `TrustScores.BetweenJobs` | clients/models/marketplace_b2b.py:171-211 | between jobs a score moves by exactly 2 for each deal and -10 for each refund, the dispute rate by 1.5 percent for each refund |
| `TrustScores.JobsIgnore` | clients/tasks.py:301-355 | over every run jobs change a seller's score and flag only, and nothing of one that is disabled or not selling |
| `TrustScores.AwardPriceAfterDrift` | clients/tasks.py:541-548 | the price bound of an award in terms of the deals and refunds since scores were last in range |
| `Bidding.AuctionHouse.WatchdogCycle` | clients/apps.py:137-177 | a cycle sends bids with offers to award, re-opens them for 5 minutes if the task cannot be queued, and cancels those without |
| `Bidding.AuctionHouse.TriggerEscrowHold` | clients/models/marketplace_b2b.py:119-136 | a hold moves the goods total to held and the bid to escrow_held, or is refused and changes nothing |
| `Bidding.AuctionHouse.ProcessAward` | clients/tasks.py:514-571 | one delivery: nothing if already processed, cancelled without offers, else flag, price, and try to hold |
| `Bidding.AwardedIsOk` | clients/tasks.py:538-562 | an award picks the scored winner and flags exactly that offer |
| `Bidding.HoldKeeps` | clients/models/marketplace_b2b.py:119-136 | a hold keeps ledger, accounts and bids in order and moves no money between clients |
| `Bidding.OfferKeeps` | clients/views/b2b_views.py:109-165 | offers, replaced offers and automatic awards keep the invariant |
| `Bidding.CycleKeeps` | clients/apps.py:137-177 | watchdog cycles keep the invariant |
| `Bidding.AwardKeeps` | clients/tasks.py:514-571 | award deliveries, repeated ones too, keep the invariant |
| `Bidding.CycleClearsExpired` | clients/apps.py:140-177 | after a cycle no bid is open with an expiry at or before the cycle's time |
| `Bidding.EveryRunIsSound` | clients/tasks.py:514-571 | over every run: no bid with offers is cancelled, an awarded bid has one flagged offer matching winner and price, one hold for each held bid, held money = sum of holds |
| `Bidding.HeldIsFinal` | clients/tasks.py:521-523 | once escrow_held, no delivery or cycle changes the bid, and funds are held once |
| `Bidding.MoneyIsConserved` | clients/models/marketplace_b2b.py:119-136 | only a deposit changes what a client owns, balance and held together |
| `AwardOutcomes.HeldAmount` | clients/models/marketplace_b2b.py:97-134 | over every run each held bid has exactly one hold, in its buyer's name, for the winner's price times the quantity, at least one |
| `AwardOutcomes.OwnsWhatItPaid` | clients/models/marketplace_b2b.py:303-317 | over every run what a client owns, balance and held money together, is what it has paid in |
| `AwardOutcomes.WinnerIsBest` | clients/tasks.py:525-548 | no offer outdoes the winner's, by price and by stored trust score (50 if none), a point of trust weighing one percent of the cheapest price or of one pound |
| `AwardOutcomes.TrustTold` | clients/tasks.py:543-543 | over every run the trust score used is the one stored last, or 50 |
| `AwardOutcomes.DeliveryExact` | clients/tasks.py:538-571 | a delivery to an unprocessed bid with offers picks the winner and holds its goods' price if and only if the buyer's balance covers it; otherwise the bid waits in awarding and no money moves |
| `AwardOutcomes.OtherDeliveries` | clients/tasks.py:521-533 | without offers the bid is cancelled; a processed bid is left alone |
| `AwardOutcomes.LastOfferCounts` | clients/views/b2b_views.py:109-147 | over every run a bid's offers are the last ones taken from each seller, at their prices |
| `AwardOutcomes.OnTheSpotExact` | clients/views/b2b_views.py:149-165 | an offer is awarded on the spot if and only if the bid asks for it, the price is within the target and the balance covers the goods |
| `AwardOutcomes.ExpiryExact` | clients/apps.py:140-177 | an expired bid is cancelled without offers, awarding if the task was queued, else open for another 300 seconds and no longer |
| `AwardOutcomes.RunningBidsStay` | clients/apps.py:140-148 | a cycle leaves every other bid alone |
| `MarketSync.MarketDesk.DispatchSync` | inventory/services/inventory_service.py:604-628 | a saved stock row's message names its product, unless the broker is down |
| `MarketSync.MarketDesk.AddStockRow` | inventory/signals.py:213-215 | a new stock row asks for the sync of its product |
| `MarketSync.MarketDesk.DeliverSync` | clients/tasks.py:362-439 | a delivered sync message runs the sync task, and may come again |
| `MarketSync.MarketDesk.SyncProduct` | clients/tasks.py:372-439 | one delivery: removes the listing of an unpublished, inactive or empty product, updates an existing one, never creates or reprices |
| `MarketSync.MarketDesk.SyncNow` | inventory/services/inventory_service.py:509-557 | the direct sync: creates, updates or removes the listing |
| `MarketSync.MarketDesk.SaveProduct` | inventory/signals.py:413-432 | saving an unpublished product takes its listing down at once; saving a published one leaves the market alone |
| `MarketSync.MarketDesk.ApproveListing` | inventory/services/inventory_service.py:568-592 | an approval publishes the product and lists it at the approved price |
| `MarketSync.SyncAgrees` | clients/tasks.py:387-430 | after a delivery or an approval the listing shows the summed branch stock and the product's texts, or is gone |
| `MarketSync.AgreementKept` | clients/tasks.py:414-430 | no event about other products, other merchants or late messages breaks that agreement |
| `MarketSync.TransferNeedsNoDelivery` | clients/tasks.py:387-389 | goods moved between branches leave every listing right |
| `MarketSync.SettledAgrees` | clients/tasks.py:377-430 | a product delivered after its last change agrees with the market at the end of the run, in any order and with any duplication |
| `MarketSync.TidyExact` | inventory/services/inventory_service.py:631-656 | a step leaves a listing with neither a product in stock behind it nor a removal on its way if and only if it re-keys a listed product, or the broker loses the removal of a deleted product or of its last row |
| `MarketSync.OnlyRekeyingLeavesBehind` | inventory/services/inventory_service.py:637-656 | while the broker takes messages only a change of part number or condition does that |
| `MarketSync.RekeyedListing` | clients/tasks.py:414-418 | a market in which it happens |
| `MarketSync.DeletedIsGone` | inventory/signals.py:218-220 | after a product is deleted its listing is gone or its removal is still on its way, through every run without approvals |
| `MarketSync.Converges` | clients/tasks.py:377-430 | once every product has a delivery after its last change and nothing was left behind, every listing mirrors a product that may be shown or is about to be removed, in any order and with any duplication of messages |
| `MarketSync.CoveredExact` | inventory/signals.py:213-432 | a step leaves a product wrong in the market with no message on its way if and only if it changes the stock of a listed product and its message is lost, or edits the name, brand or activity of a published one |
| `MarketSync.OnlyEditsLeaveStale` | inventory/signals.py:413-432 | while the broker takes messages only an edit of a published product does that |
| `MarketSync.DrainedExact` | inventory/services/inventory_service.py:604-656 | when all messages after a step have been delivered, the market agrees with the product if and only if the step did not leave it so |
| `MarketSync.DeliveryTakes` | clients/tasks.py:362-480 | a delivery takes its message off the queue, unless it will come once more, and no other |
| `MarketSync.Drains` | clients/tasks.py:362-480 | delivering what is in the queue empties it |
| `MarketSync.EmptyQueueMirrors` | clients/tasks.py:377-480 | over every run without such steps an empty queue means that every listing mirrors a product that may be shown |
| `MarketSync.RenamedListing` | inventory/signals.py:413-432 | a renamed product whose listing keeps the old name with no message on its way |
| `MarketSync.OnlyApprovalLists` | clients/tasks.py:422-430 | only an approval creates a listing or sets its price |
| `MarketSync.ApprovalExact` | inventory/services/inventory_service.py:537-592 | an approval lists an active product in stock at the approved price, or else its retail, or else its wholesale price, takes any other down, and touches no other listing |
| `MarketSync.ApprovedPriceLasts` | inventory/services/inventory_service.py:537-592 | over every later run without approvals a slot still listed is listed at that price |
| `MarketSync.SaveExact` | inventory/signals.py:413-432 | a product is stored if and only if its texts fit and no other of the merchant has its part number |
| `MarketSync.SyncNeverAdds` | clients/tasks.py:408-430 | over every run without approvals no listing appears and no price changes |
| `MarketSync.ListedExact` | clients/tasks.py:408-480 | over such a run a slot is listed at the end if and only if it was at the start and no delivered removal, sync of a product not to be shown, or unpublishing took it down |
| `MarketSync.OneBranchTakesTheListingDown` | inventory/services/inventory_service.py:631-656 | deleting one branch's stock row takes down the listing of a product that other branches hold, and no later delivery restores it |
| `MarketSync.MarketDesk.DispatchDelete` | inventory/services/inventory_service.py:631-656 | the removal message names the product's slot, unless the broker is down |
| `MarketSync.MarketDesk.DeleteRow` | inventory/signals.py:218-220 | exactly the one row goes, and its product's removal is asked for |
| `MarketSync.MarketDesk.DeleteProduct` | inventory/models/catalog.py:185-187 | deleting a product deletes its rows, each of which asks for the removal |
| `MarketSync.MarketDesk.RemoveListing` | clients/tasks.py:460-474 | a delivered removal takes the listing of its slot down |
| `Billing.BillingCron.SendWarning` | clients/tasks.py:72-142 | a warning already noted today is not sent again; else it is sent and noted for 86400 s |
| `Billing.BillingCron.SendWarnings` | clients/tasks.py:222-243 | one window warns exactly the tenants due in it that can be reached |
| `Billing.BillingCron.SuspendExpired` | clients/tasks.py:252-261 | lapsed trials and paying tenants past grace are logged and suspended |
| `Billing.BillingCron.Orchestrate` | clients/tasks.py:201-263 | the whole job equals the closed form of one night |
| `Billing.NextWindow` | clients/tasks.py:214-243 | a window sends the same whatever the windows before it have sent |
| `Billing.NightFollowsGate` | clients/tasks.py:252-261 | the job suspends exactly the tenants that the access check already refuses for being over time, so no working day is gained or lost |
| `Billing.NightLogsEachSuspension` | clients/tasks.py:188-261 | each suspension logs one event, and nothing else does |
| `Billing.LogExact` | clients/tasks.py:188-261 | a lapsed trial is logged if the trials' log can be written, a lapsed subscription if the subscriptions' can |
| `Billing.WarnedOnce` | clients/tasks.py:72-142 | over every run with days under 86400 s each warning goes out once if it was ever owed on its day, and never otherwise |
| `Billing.WarnedExact` | clients/tasks.py:214-243 | over such a run a warning goes out if and only if some night reaches an enabled trial or paying tenant that ends 3, 1 or 0 days later; nobody disabled, suspended or cancelled is warned |
| `Billing.ResentExact` | clients/tasks.py:72-142 | on one date a second run resends if and only if it comes 86400 s or more after the first |
| `Billing.LongDayResends` | clients/tasks.py:72-142 | a 25-hour day on which one warning goes out twice |
| `Billing.RepeatExact` | clients/tasks.py:201-263 | repeating the job on one date changes tenants, cache, outbox and log not at all if and only if every warning it owes was sent that day; in particular if it reaches nobody the first run missed |
| `Billing.SuspendedOnTime` | clients/tasks.py:252-261 | a tenant is suspended by the first run after its last day (trial end; paid end + 3 days), not before, and logged once |
| `Billing.WarningsOfOneTenant` | clients/tasks.py:214-243 | a tenant gets the 3-, 1- and 0-day warnings, each once if the job reached it that day, and no other warning ever |
| `Attendance.HrOffice.ApplyHoliday` | hr/services/holiday_service.py:24-34 | afterwards no day of the range without clock-in is absent or excused; only such records changed, to holiday, and their number is returned |
| `Attendance.HrOffice.UnapplyHoliday` | hr/services/holiday_service.py:37-63 | holiday days no other holiday covers become excused or absent by the approved leaves |
| `Attendance.HrOffice.MarkLeaveDaysExcused` | hr/signals.py:74-102 | an approved leave marks its days, holiday before excused, and skips days with a clock-in |
| `Attendance.HrOffice.ApproveLeave` | hr/services/leave_service.py:39-58 | only a pending request is approved |
| `Attendance.HrOffice.SaveHoliday` | hr/signals.py:113-129 | a moved holiday is first taken off its old range, then applied |
| `Attendance.HrOffice.DeleteHoliday` | hr/signals.py:132-135 | a deleted holiday is taken off its range |
| `Attendance.HrOffice.MarkAbsentEmployees` | hr/services/attendance_service.py:292-369 | the daily job creates holiday, excused or absent records where none exist |
| `Attendance.HrOffice.ClockIn` | hr/services/attendance_service.py:107-180 | a second clock-in on a day is refused |
| `Attendance.SaveLeaveExact` | hr/signals.py:74-102 | after a leave request is saved in any way the records agree if and only if no day it used to excuse is left behind |
| `Attendance.WithdrawnLeave` | hr/signals.py:80-81 | an approved leave that is withdrawn leaves its day excused |
| `Attendance.HrOffice.DeleteLeave` | hr/admin.py:201-202 | a deleted request goes and no record changes |
| `Attendance.DeleteLeaveExact` | hr/admin.py:201-202 | after a request is deleted the records agree if and only if no day without clock-in and holiday loses its last approved leave |
| `Attendance.DeletedLeave` | hr/admin.py:201-202 | an approved leave that is deleted leaves its day excused |
| `Attendance.ApproveKeeps` | hr/services/leave_service.py:39-58 | approving a pending request keeps every record in agreement |
| `Attendance.SaveHolidayKeeps` | hr/signals.py:113-129 | adding or moving a holiday keeps every record in agreement |
| `Attendance.DeleteHolidayKeeps` | hr/signals.py:132-135 | deleting a holiday keeps every record in agreement |
| `Attendance.MarkAbsentKeeps` | hr/services/attendance_service.py:292-369 | the daily job keeps every record in agreement |
| `Attendance.EveryRunAgrees` | hr/signals.py:74-135 | over every run a record without clock-in is holiday, else excused, else absent as holidays and approved leaves say now; records with a clock-in never change |
| `AttendanceHistory.ApproveExact` | hr/services/leave_service.py:39-58 | an approval approves its request and no other, makes every day of its range without clock-in holiday or excused, pardons an absence with one, and touches no other day |
| `AttendanceHistory.ApproveRefused` | hr/services/leave_service.py:43-44 | a request that is not pending cannot be approved |
| `AttendanceHistory.LeavesTold` | hr/services/leave_service.py:39-58 | over every run a request is approved at the end if and only if an approval came after it was made |
| `AttendanceHistory.ClockInsTold` | hr/services/attendance_service.py:107-180 | over every run a day has a clock-in if and only if one happened, late or not as the first was |
| `AttendanceHistory.TableTold` | hr/signals.py:74-135 | over every run a record exists and is exactly what the clock-ins, daily jobs, approved leaves and holidays of its history say |
| `EmployeeNumbers.EmployeeTable.Save` | hr/models.py:256-283 | an unused proposed id is stored; after five clashes the row gets a blank id |
| `EmployeeNumbers.GreatestExists` | hr/models.py:260-262 | the query finds a string-greatest id whenever the prefix is in use |
| `EmployeeNumbers.LessIsNumeric` | hr/models.py:262-264 | digit strings of one length are ordered as their numbers |
| `EmployeeNumbers.HandWritten` | hr/models.py:262-267 | number 1 is proposed when there is no id or the greatest does not end in a number |
| `EmployeeNumbers.ProposedIsNext` | hr/models.py:260-267 | while generated numbers stay within 9999 exactly one id is proposed; it is unused and its number is above all |
| `EmployeeNumbers.TakenExact` | hr/models.py:260-267 | for generated ids with whatever gaps, an id in use is proposed if and only if some all-nines number and its successor are in use and nothing else begins with those nines |
| `EmployeeNumbers.BlockedBelow` | hr/models.py:260-267 | with numbers up to 99989 that is: 9999 and 10000 are both in use |
| `EmployeeNumbers.NumbersRunOut` | hr/models.py:260-267 | in particular a department numbered 1 to n without gaps, n at most 10000, gets its next number if and only if n is below 10000 |
| `ObdReplay.ObdGate.AuthDevice` | workshop/api_obd.py:74-100 | nonce length, device status, timestamp window and signature, in that order |
| `ObdReplay.ObdGate.RecordNonce` | workshop/api_obd.py:102-108 | a nonce is recorded once per device |
| `ObdReplay.ObdGate.PurgeOlderThan` | clients/obd_device_models.py:159-163 | a row goes if and only if it was seen before the cutoff, the others stay as they are, and the number of those gone is returned |
| `ObdReplay.ObdGate.RotateSecret` | clients/obd_device_models.py:106-115 | a rotation replaces the secret and counts the generation |
| `ObdReplay.RunRefusesReplay` | clients/tasks.py:673-692 | over every run no message of a device is accepted twice if the retention outlasts its window |
| `ObdReplay.ReplayHappens` | clients/tasks.py:673-692 | otherwise some run accepts one message twice |
| `ObdReplay.ReplayProtectionExact` | clients/tasks.py:673-692 | both together: the exact condition on retention, window and recording lag |
| `ObdReplay.DefaultsOutlast` | clients/tasks.py:673-680 | with prompt recording the condition is 2 window < retention; 300 s and 900 s leave 299 s of lag |
| `ObdReplay.RotationInvalidates` | clients/obd_device_models.py:106-138 | a check right after a rotation to a different secret refuses what the old one signed; what was checked before is `RotationExact` |
| `ObdReplay.RotationExact` | clients/obd_device_models.py:106-115 | a message checked with the old secret can be accepted after a rotation, in some continuation, if and only if it was waiting for its nonce to be recorded |
| `ObdReplay.RotationInRun` | workshop/api_obd.py:93-108 | the same at every moment of every run |
| `ObdAcceptance.VerdictExact` | workshop/api_obd.py:74-100 | a request passes if and only if it is genuine, and is refused for the first thing wrong in the order nonce, device, timestamp, signature |
| `ObdAcceptance.ArrivalExact` | workshop/api_obd.py:74-100 | an arrival waits to be recorded if and only if it is genuine at that moment |
| `ObdAcceptance.AcceptedWasGenuine` | workshop/api_obd.py:74-108 | over every run an accepted message arrived from an active device, with a nonce of 16 to 64 characters, within the window and signed with the secret of that moment |
| `ObdAcceptance.SuspensionExact` | workshop/api_obd.py:83-108 | of a suspended or revoked device exactly the messages that were waiting can be accepted before it is made active again |
| `ObdAcceptance.SuspensionInRun` | workshop/api_obd.py:83-108 | the same at every moment of every run |
| `VatBreakdown.RoundIsNearest` | erp_core/einvoice.py:64-65 | the rounding gives the nearest whole piastre, halves away from zero |
| `VatBreakdown.PartsAddUp` | erp_core/einvoice.py:62-66 | net + vat = total if and only if the total is whole piastres or the rate is not positive |
| `VatBreakdown.HalfPiastre` | erp_core/einvoice.py:62-66 | half a piastre at any positive rate splits into parts that sum to a whole one |
| `VatBreakdown.NoTax` | erp_core/einvoice.py:62-63 | without a positive rate the whole total is net |
| `VatBreakdown.NetIsNearest` | erp_core/einvoice.py:64-65 | otherwise the net is the nearest whole amount to total * 100 / (100 + rate), the tax that to the rest |
| `VatBreakdown.NegatedSplit` | erp_core/einvoice.py:60-66 | the split of the negated total is the negated split |
| `VatBreakdown.MonotoneSplit` | erp_core/einvoice.py:60-66 | both parts are monotone in a whole total |
| `VatBreakdown.PartsNonNegative` | erp_core/einvoice.py:60-66 | both parts of a non-negative whole total are non-negative |
| `VatBreakdown.GrossUpRoundTrip` | erp_core/einvoice.py:60-66 | grossing a net amount up half-up at any positive rate and splitting it gives the net back |
| `Base64.Base64RoundTrip` | erp_core/einvoice.py:42-42 | decoding by section 4 of RFC 4648 undoes the encoding |
| `Base64.AlphabetExact` | erp_core/einvoice.py:42-42 | the alphabet of Table 1 of RFC 4648 |
| `Base64.PaddingExact` | erp_core/einvoice.py:42-42 | four characters for every three bytes, `=` at the end for each missing byte and nowhere else |
| `Decimals.AmountRoundTrip` | erp_core/einvoice.py:39-40 | a two-decimal amount reads back as the number of piastres |
| `TaxInvoiceQr.TlvReadsBack` | erp_core/einvoice.py:27-30 | fields can be written if and only if each value has at most 255 UTF-8 bytes, and then read back |
| `TaxInvoiceQr.QrReadsBack` | erp_core/einvoice.py:33-42 | the QR text exists if and only if the five values fit, and decodes to exactly those values under tags 1 to 5 |
| `RateLimiter.FallbackLimiter.Request` | erp_core/wsgi.py:149-157 | one request: stale entries dropped, limited above 120 hits, always counted |
| `RateLimiter.ClientsIndependent` | erp_core/wsgi.py:149-155 | over every run a client is treated as if it were alone |
| `RateLimiter.WindowBound` | erp_core/wsgi.py:149-155 | at most 121 admissions in each 60 s window that a run opens, and windows do not overlap |
| `RateLimiter.AnyMinuteBound` | erp_core/wsgi.py:149-155 | at most 241 admissions in any 60 s of any run |
| `RateLimiter.EveryClientBounded` | erp_core/wsgi.py:149-157 | over every run of many clients, for each client: at most 121 requests get past the table in each window it opens, at most 241 in any 60 s |
| `RateLimiter.RefusedSentMany` | erp_core/wsgi.py:149-157 | a client that is refused has sent more than 120 requests in the 60 s before, whatever the others do |
| `RateLimiter.BoundReached` | erp_core/wsgi.py:149-155 | 241 is attained |
| `Texts.StripIs` | clients/forms.py:159-159 | stripping removes exactly the leading and trailing characters of the class |
| `Subdomains.GapIsOneDash` | clients/forms.py:159-159 | each gap of spaces and underscores becomes one dash, words stay |
| `Subdomains.WordsJoined` | clients/forms.py:159-159 | two words in any case, with any gap between and spaces around, become the words in lower case with one dash |
| `Subdomains.FormExact` | clients/forms.py:161-171 | what is typed is refused for its form if and only if, once normal, it is not 3 to 50 lower-case letters, digits and dashes beginning with a letter; for a double dash only if it has one |
| `Subdomains.AcceptedIsLabel` | clients/forms.py:165-170 | an accepted name is a DNS label of section 2.3.1 of RFC 1035, without double dashes |
| `Subdomains.CleanIdempotent` | clients/forms.py:148-200 | what cleaning accepts it accepts again, unchanged |
| `Subdomains.SchemaRoundTrip` | clients/signals.py:43-44 | a name survives schema and back if and only if it has no underscore |
| `Subdomains.AcceptedRoundTrip` | clients/signals.py:43-44 | accepted names come back from their schemas, and distinct names have distinct schemas |
| `Subdomains.SchemaUsableExact` | clients/forms.py:181-190 | the schema of an accepted name is usable in PostgreSQL if and only if the name does not begin with `pg-` |
| `Subdomains.Registry.SignUp` | clients/views/auth_views.py:161-285 | up to ten attempts; succeeds if and only if the first name that meets no schema can be created; the address made never belongs to another tenant |
| `Subdomains.FirstSchemaExact` | clients/views/auth_views.py:154-159 | the first schema is the address, or the company's name, or a made-up one, with underscores for dashes and `tenant_` before a digit |
| `Subdomains.RetryExact` | clients/views/auth_views.py:282-285 | a retry asks for the same address with a dash and the suffix, which still fits |
| `Subdomains.LabelAccepted` | clients/forms.py:159-200 | a label of 3 to 50 characters without double dash is accepted as it is if and only if it is neither reserved nor in use |
| `Subdomains.PgNameAccepted` | clients/forms.py:181-190 | an accepted name whose schema cannot be created |
| `Subdomains.AcceptedIsTheAddress` | clients/views/auth_views.py:154-161 | an accepted name was free, is tried first, and becomes the address if and only if it does not begin with `pg-` |

## Left out

- CircuitBreaker.FollowsDocumentation: one direction over runs; the converse is proved for the next failure (`CutStreakExact`), since a run that diverged may meet the documentation again after a success.
- Billing.WarnedOnce: assumes that runs on one date lie less than 86400 s apart; `ResentExact` says what happens when they do not.
- MarketSync.EmptyQueueMirrors: one direction over runs; the converse is proved for each step (`DrainedExact`), since a later change may repair a stale listing.
- MarketSync.Converges: assumes that no listed product was re-keyed in the run and that the broker lost no removal that mattered; `TidyExact` says that this is exactly when a listing is left behind.
- EmployeeNumbers.ProposedIsNext: saves are atomic; the race between reading the greatest id and inserting is not modelled, nor Unicode digits in hand-written ids, nor a database collation other than by code point.
- Attendance.EveryRunAgrees: leave requests are only created and approved in these runs; other edits are covered by `SaveLeaveExact`, deletion by `DeleteLeaveExact`.
- TrustScores.BanExact: deal velocities are exact rationals where the code divides floats.
- AwardScoring.WinningPriceBound: scores are exact rationals where the code uses floats.
- VatBreakdown.GrossUpRoundTrip: Decimal's context precision of 28 digits is not modelled.
- Subdomains.Registry.SignUp: domains entered by hand and the race between two sign-ups are not modelled; creating a schema fails only for its name.
- Races inside one watchdog cycle, one award delivery, one sync or one billing run: each is one atomic step.
- Redis outages, `IGNORE_EXCEPTIONS`, and the limiter's Redis branch.
- NaN and infinities in JSON output, and numbers as values rather than lexemes.
- Shipping, release, refund and dispute of a held bid, apart from what release and refund do to the seller's score.
- The match score and the recommended winner shown while offers come in.
- Repricing listings to retail, demand counters, and removing a deleted tenant's listings.
- A warning that is sent by e-mail and then raises: a warning counts as sent only when it is noted.
- Scheduled plan changes, automatic renewal and invoices inside the billing run.
- Clock-out, hours, lateness, payroll, advances and entitlements; the checks of location and face before a clock-in.
- The missing-header and malformed-timestamp answers of the OBD view, its telemetry, and device provisioning.
- HTTP, Celery, e-mail, WhatsApp and language-model calls, templates, permissions, and the platform's other applications: plumbing, or one-branch predicates.
