# Graphite verification

A Dafny model of the four parts of the Graphite game economy that have to be exactly right, with proofs about every input, every
call and every run:

1. **The bank** (`Q32`, `LargestRemainder`, `Lots`, `Fees`, `Interest`, `Bank`, `BankLaws`, `BankRuns`, `BankService`,
   `BankPromises`, `BankReference`, `InterestReference`): deposit lots spent first in, first out; a withdrawal fee in age, balance and rolling bands; daily interest
   with a carried fixed-point remainder, shared among the lots by largest remainder; a double-entry ledger; one movement per
   request key.
2. **The integer kernels** (`IntegerSqrt`, `FixedPoint`, `FixedPointRange`, `FixedPointLaws`, `FixedPointSeries`,
   `FixedPointAnchors`, `LineBreak`, `LineBreakTurn`, `InverseNormal`, `InverseNormalSign`, `InverseNormalForm`,
   `Rationals`, `CatchLoad`, `OverCap`, `ActivityLevels`, `Sampling`): bit-by-bit square root, fixed-point logarithm, exponential
   and power, the inverse normal, exact rational catch loads, the over-cap chance, the activity level search, and rejection
   sampling.
3. **Equipment and enchants** (`Enchants`, `EnchantApply`, `Equipment`, `EquipmentRuns`, `EquipmentRequests`,
   `EquipmentService`, `EquipmentReference`): two writers, equip and book application, that guard one rule about worn armor
   from opposite sides.
4. **Storage** (`Storage`, `StorageLaws`, `StorageRuns`, `StorageClaims`, `StorageHistory`, `StorageService`,
   `StorageReference`): bags bounded by slots and by grams, pending overflow, claims in order of arrival, and sub-mutations
   that act once per operation and key.

The modules named `...Reference` say of every call, on the fields of the tables and with the published numbers written out, when it
goes through, with which first reason it is refused, and what it changes.

`Numbers`, `Text`, `Sums` and `Products` hold the shared machine ranges, string checks, sums and product facts.

## How it is modelled

- Each service is a class (`BankTables`, `EquipmentTables`, `StorageTables`, and `DomainRng` for the generator) whose fields are
  the database tables as maps and sequences. Each call is a method with the branches, loops and statements of the source. Its
  contract ties the new tables and the result to a function of the old tables (`Bank.Mutate`, `Bank.AccrueInterest`,
  `Equipment.Equip`, `Storage.ClaimPending`, and so on), and the laws are proved about those functions and about whole runs of
  them.
- A call is one step. The source takes its row locks in one order and commits or rolls back as a whole, so calls of one player
  are serial and a call that fails leaves the tables as they were.
- The database's unique constraints are part of the model: one operation per request key, one event per operation and mutation
  key, one ledger transaction per operation, one worn item per player and slot.
- Machine integers are unbounded integers with the range checks of the source written out (`InI64`, `InU64`, `InI128`, `InU128`).
- Time, the current day and the resolved fish are parameters. Identifiers come from a counter in the tables, so that the order
  of creation is the order of the rows. A request hash is represented by what is hashed. The random generator is an arbitrary
  stream of 64-bit words.
- A bank run starts from any tables that meet the invariant and mixes deposits, withdrawals, interest, wallet spends, operations
  of other services, status changes and rebirths; the other two runs likewise mix their calls with what other services do to
  the same rows.

## Where the code and what it promises differ

- **The interest conflict can fire.** Interest operations live under keys of the form `system:bank-interest:<player>:<day>` in
  the same unique column as the request keys of callers, and the bank calls accept any key text. `BankPromises.InterestConflictExactly`
  says exactly when the conflict fires, `BankPromises.ReservedKeyAccepted` exhibits it from an accepted deposit, after which that
  account earns nothing more, and `BankRuns.NoInterestConflict` shows that it never fires while callers keep to their own keys.
- **Splitting a withdrawal can be cheaper.** When the first part moves the balance into a lower band the second part pays the lower
  surcharge. `BankPromises.SplitDifference` gives the exact difference between two fees and one for every split, from numbers known
  before the first call, and with it when splitting is cheaper: if and only if the band drop exceeds the extra rounding, hence never
  within one band and always when the drop is worth two units. `BankPromises.SplitCheaperAcrossBands` is an example, and
  `BankPromises.WithdrawSplit` carries the result to the calls themselves.
- **Replaying an interest key as a deposit** is a database error rather than an idempotency conflict, because the stored row has no
  actor to read. `BankPromises.DatabaseErrorExactly` says exactly when that error occurs, `BankPromises.InterestKeyUnreadable` that
  every key an interest call takes answers this way from then on, and `BankPromises.InterestKeyDeposit` shows one.
- **A claim or a fish delivery that finds another kind of event under its key** reports a stored mutation it cannot read, where stack,
  consumption and unique deliveries report a conflict. `StorageHistory.ClaimUnreadableExactly` says exactly when a claim does,
  `StorageHistory.KeysNeverShared` gives the error of every kind after any run, and `StorageHistory.SharedKeyExample` shows both
  orders. Nothing changes in either case.
- **The order of the tensions can decide whether a catch load overflows** for fractions that no real fish has:
  `CatchLoad.OrderCanOverflow` is an input, and `CatchLoad.CatchLoadExact` says exactly when the sum exists.

The line-break chance has one failure beyond its named errors: the excess times the scale leaves 128 bits below the short circuit
(`LineBreak.LineBreakContract`). No catch of real fish reaches it (`OverCap.RealCatchResolves`).

## Model

| member | source | states |
|---|---|---|
| Q32.PowError | crates/graphite-economy/src/interest.rs:455-474 | For every base in 0..=2^32 and every exponent the rounded power exists, stays in 0..=2^32 and is within n/2 units of the true power |
| Q32.Pow | crates/graphite-economy/src/interest.rs:455-467 | The square-and-multiply loop computes the recursive power with the same roundings and the same overflow |
| Q32.MulRounds | crates/graphite-economy/src/interest.rs:469-474 | One product is the exact product rounded to the nearest unit, and never overflows on 0..=2^32 |
| LargestRemainder.DistanceOptimal | crates/graphite-economy/src/interest.rs:356-414 | A split cut at a remainder threshold is no further, in summed distance, from the exact shares than any other split, up to what their totals differ |
| Lots.LoadFifoLotDebits | crates/graphite-economy/src/bank.rs:465-506 | The walk over active lots returns the FIFO debits, and fails exactly when the lots do not cover the amount |
| Lots.DebitsCover | crates/graphite-economy/src/bank.rs:484-505 | Lots that hold the amount give positive debits that sum to exactly the amount, so the integrity error is unreachable |
| Lots.ApplyLotDebits | crates/graphite-economy/src/bank.rs:508-525 | The updates by id, one debit after another, fail when one finds no lot with enough principal |
| Lots.DebitsDrain | crates/graphite-economy/src/bank.rs:465-525 | The updates by id of a withdrawal all succeed and drain the lots from the front |
| Lots.DrainedRows | crates/graphite-economy/src/bank.rs:508-525 | Draining lowers the summed principal by exactly the amount and changes no id, no date and no sign |
| Lots.DrainedTwice | crates/graphite-economy/src/bank.rs:465-525 | Taking a and then b leaves the lots that taking a + b leaves |
| Fees.RollingMarginalNumerator | crates/graphite-economy/src/fees.rs:76-111 | The segment loop computes the marginal charge, and fails exactly when prior and amount leave 128 bits |
| Fees.RollingIsUnitByUnit | crates/graphite-economy/src/fees.rs:76-111 | The segment arithmetic charges what charging every single unit at its own band's rate charges |
| Fees.RollingAdds | crates/graphite-economy/src/fees.rs:76-111 | The rolling numerators of two consecutive withdrawals add up to that of their sum |
| Fees.AgeAdds | crates/graphite-economy/src/fees.rs:24-37 | The age numerators of two withdrawals at one instant add up to that of their sum, over the lots each one meets |
| Fees.ComputeWithdrawalFee | crates/graphite-economy/src/fees.rs:17-48 | The accumulating loop with its checked steps computes the ceiling of age, balance and rolling charges |
| Fees.FeeBounds | crates/graphite-economy/src/fees.rs:17-119 | From 500 up the fee lies between the ceilings of 0.12% and 1.11%, hence strictly below the amount |
| Fees.CeilSplit | crates/graphite-economy/src/fees.rs:113-119 | Rounding up two parts costs nothing or one unit more than rounding up their sum |
| Interest.CalculateDailyInterest | crates/graphite-economy/src/interest.rs:416-446 | The checked computation has the credit, remainder and errors of the specification |
| Interest.GrowthRange | crates/graphite-economy/src/interest.rs:448-453 | For every rebirth count the growth exists and lies in [0, 1] |
| Interest.DailyExact | crates/graphite-economy/src/interest.rs:416-446 | Denominator times credit plus new remainder is exactly accrual plus old remainder, the remainder stays in range, and the credit is at most 60 ppm of the balance rounded up |
| Interest.AllocateInterestToLots | crates/graphite-economy/src/interest.rs:356-414 | In place, the lots become the specified split's lots, with its errors |
| Interest.CreditedFair | crates/graphite-economy/src/interest.rs:356-414 | The shares sum to the interest, each is the floor or ceiling of the exact share, a larger lot never gets less, ids and dates stay, and the only reachable error is overflow of the new balance |
| Interest.CreditedClosest | crates/graphite-economy/src/interest.rs:356-414 | No other whole-unit split of the interest is closer to the exact shares in summed distance |
| Interest.DaysCompose | crates/graphite-economy/src/interest.rs:191-240 | Catching up n + m days is catching up n days and then m days, in state, credits and errors |
| Interest.CatchUpExact | crates/graphite-economy/src/interest.rs:151-249 | Over a whole catch-up value is conserved exactly, lots stay reconciled, and the credited days are distinct, were free and add up to the growth of the balance |
| InterestReference.GrowthClose | crates/graphite-economy/src/interest.rs:448-474 | For every rebirth count one minus the growth is 0.95123... to that power, to within half a unit of 2^-32 a rebirth |
| InterestReference.DayRateExact | crates/graphite-economy/src/interest.rs:416-453 | For every balance and rebirth count, credit and change of remainder together are the published rate of 40 ppm and up to 20 more on the first ten million, computed on real numbers, to within the error of the power |
| InterestReference.CreditedRanked | crates/graphite-economy/src/interest.rs:385-405 | The shares rounded up are those with the largest remainders, the first lots first among equal ones |
| InterestReference.SmallInterestAddsUp | crates/graphite-economy/src/interest.rs:191-240 | While the remainder stays below a unit, any number of days leaves balance and lots alone and adds up in the remainder exactly |
| InterestReference.FiveHundredEarnsOne | crates/graphite-economy/src/interest.rs:644-657 | Every reconciled balance of 500 without a rebirth or remainder earns nothing for 49 days and one unit on the fiftieth |
| InterestReference.AccrueSucceeds | crates/graphite-economy/src/interest.rs:151-249 | A missing player is reported if and only if it is missing, and any other call succeeds when it has nothing to credit, or when no day to come has its key in use and the balance is at most nine quintillion |
| BankLaws.AccountFeeBounds | crates/graphite-economy/src/bank.rs:249-263 | On a backed account the fee of every legal withdrawal is positive and below the amount, so the invalid-fee error is unreachable |
| BankLaws.MutateBooks | crates/graphite-economy/src/bank.rs:154-294 | A fresh key books exactly one movement with the stated receipt and tables, a used key returns the stored receipt or is refused without effect, and the lot, fee and transition errors are unreachable |
| BankLaws.MutateKeeps | crates/graphite-economy/src/bank.rs:154-294 | Deposits and withdrawals keep lots equal to the bank balance, balances in range, keys one-to-one with operations and every ledger transaction at sum zero |
| BankLaws.MutateExplained | crates/graphite-economy/src/bank.rs:591-641 | Every balance stays its opening value plus its postings |
| BankReference.OldestFirst | crates/graphite-economy/src/bank.rs:465-525 | In every reachable state a withdrawal takes from the oldest lots: a lot that loses principal has no older lot with any left, the total falls by the amount, and no lot changes otherwise |
| BankReference.DepositAddsLot | crates/graphite-economy/src/bank.rs:154-210 | A deposit adds exactly one lot of its amount and instant, and the lots stay in order of date and id |
| BankReference.WindowExact | crates/graphite-economy/src/bank.rs:534-553 | A withdrawal anywhere in the history adds its whole gross to the prior gross for exactly 24 hours, the last instant included, and nothing afterwards |
| BankReference.OldWithdrawalFree | crates/graphite-economy/src/bank.rs:534-553 | A withdrawal more than 24 hours old changes no fee |
| BankReference.FeeIsPublished | crates/graphite-economy/src/fees.rs:17-119 | The fee is the published charge rounded up once: every unit at the rate of its lot's age, the amount at the rate of the balance, and every unit at the rate of its place in the day's gross |
| BankReference.FeeExistsExactly | crates/graphite-economy/src/fees.rs:76-111 | A fee exists if and only if the day's gross with the amount fits 128 bits |
| BankReference.FreeKeyExactly | crates/graphite-economy/src/bank.rs:154-295 | Under a free key a request goes through if and only if none of the named causes holds, and the first one in order is the error |
| BankReference.MovementExactly | crates/graphite-economy/src/bank.rs:154-295 | What goes through changes one account by exactly the amount and the fee, keeps one committed operation under the key, and posts wallet, bank and system once each, with nothing else changed |
| BankReference.FreshSpendExactly | crates/graphite-economy/src/wallet.rs:138-227 | A spend on an operation without a ledger transaction takes exactly its amount if and only if none of the named causes holds, and the first one is the error |
| BankRuns.AccrueBooks | crates/graphite-economy/src/interest.rs:151-249 | An interest call fails without effect or moves one account by exactly the due number of daily steps, posts what it credits, and uses only the keys of those days |
| BankRuns.AccrueExplained | crates/graphite-economy/src/interest.rs:476-568 | Interest postings explain the growth of the balance |
| BankRuns.SpendKeeps | crates/graphite-economy/src/wallet.rs:138-227 | A wallet spend keeps every table law |
| BankRuns.SpendExplained | crates/graphite-economy/src/wallet.rs:138-227 | Spend postings explain the drop of the wallet |
| BankRuns.RunKeeps | crates/graphite-economy/src/bank.rs:154-294 | In every run lots sum to the bank balance, balances are non-negative, ledger transactions sum to zero, and balances equal opening values plus postings |
| BankRuns.ReplayForever | crates/graphite-economy/src/bank.rs:319-404 | After any run a repeated request returns the same receipt and changes nothing, and different input under its key is refused without effect |
| BankRuns.OneMovementPerKey | crates/graphite-economy/src/bank.rs:664-692 | No two ledger transactions belong to operations with the same request key, in particular one per player and day |
| BankRuns.NoInterestConflict | crates/graphite-economy/src/interest.rs:195-223 | While callers keep to their own keys no run makes the interest operation conflict fire |
| BankService.BankTables.Deposit | crates/graphite-economy/src/bank.rs:154-210 | The statements of a deposit have exactly the specified effect and result, keep the invariant, and roll back on every error |
| BankService.BankTables.Withdraw | crates/graphite-economy/src/bank.rs:212-295 | The same for a withdrawal, with its debit, fee, audit and ledger steps |
| BankService.BankTables.PriceWithdrawal | crates/graphite-economy/src/bank.rs:249-263 | Debits, fee and net amount, or the error of the first check that fails |
| BankService.BankTables.Resolve | crates/graphite-economy/src/bank.rs:319-404 | Insert unless taken, read back, validate: fresh, replay, or an error without effect |
| BankService.BankTables.AccrueInterest | crates/graphite-economy/src/interest.rs:151-249 | The catch-up call has exactly the specified effect, keeps the invariant and rolls back on every error |
| BankService.BankTables.AccrueDays | crates/graphite-economy/src/interest.rs:191-240 | The loop over days on the lot array is the day-by-day specification, stored lots included |
| BankService.BankTables.InsertInterestOperation | crates/graphite-economy/src/interest.rs:476-568 | One committed operation and one ledger transaction per player-day, or nothing when the key is taken |
| BankService.BankTables.ApplyWalletSpend | crates/graphite-economy/src/wallet.rs:138-227 | The spend has exactly the specified effect, keeps the invariant and changes nothing on an error |
| BankPromises.SplitNumerator | crates/graphite-economy/src/fees.rs:17-48 | Splitting a withdrawal at one instant changes the summed numerators by exactly the drop of the balance band |
| BankPromises.SplitFees | crates/graphite-economy/src/fees.rs:17-119 | Both parts of a payable withdrawal are payable, and their fees total the ceiling of the combined numerator less the band drop, or one more; SplitDifference says which |
| BankPromises.SplitDifference | crates/graphite-economy/src/fees.rs:17-119 | The exact difference between two fees and one for every split; cheaper if and only if the band drop exceeds the extra rounding, never within a band, always from a drop of two units |
| BankPromises.WithdrawSplit | crates/graphite-economy/src/bank.rs:212-295 | The first part of a successful withdrawal succeeds, the second if and only if the wallet holds the result; then lots and balance are the same and the fees differ by exactly that difference, in one band by nought or one |
| BankPromises.SplitCheaperAcrossBands | crates/graphite-economy/src/fees.rs:64-74 | An account on which splitting across a band costs less |
| BankPromises.WithdrawSucceeds | crates/graphite-economy/src/bank.rs:212-295 | Conditions under which a withdrawal under a new key goes through, and its whole effect |
| BankPromises.CallsCatchUp | crates/graphite-economy/src/interest.rs:151-249 | Whatever the dates of the calls, and whichever fail, the account ends as that many daily steps leave it |
| BankPromises.ChunkingIrrelevant | crates/graphite-economy/src/interest.rs:151-249 | Two sequences of calls that reach the same day end with the same bank, remainder and lots |
| BankPromises.RunConserves | crates/graphite-economy/src/interest.rs:416-446 | Over any run, denominator times credited plus final remainder is initial remainder plus everything accrued, with the remainder always in range |
| BankPromises.DaysConflict | crates/graphite-economy/src/interest.rs:195-223 | A catch-up conflicts if and only if a day it would credit has its key in use |
| BankPromises.InterestConflictExactly | crates/graphite-economy/src/interest.rs:476-528 | A call conflicts if and only if a due, interest-bearing day of that player has its key in use |
| BankPromises.TakenKeyBlocksInterest | crates/graphite-economy/src/interest.rs:476-528 | With the next day's key in use the call fails on every date without effect |
| BankPromises.ReservedKeyAccepted | crates/graphite-economy/src/bank.rs:319-356 | A deposit under a key in the interest form is accepted, and interest fails on that account from then on |
| BankPromises.DatabaseErrorExactly | crates/graphite-economy/src/bank.rs:319-404 | A request ends in a database error if and only if it is legal and its key is held by a row without an actor, and no failed request changes anything |
| BankPromises.InterestKeyUnreadable | crates/graphite-economy/src/bank.rs:375-404 | Every key an interest call takes answers every legal deposit and withdrawal with that error, after any run, without effect |
| BankPromises.PayingDayTakesKey | crates/graphite-economy/src/interest.rs:476-528 | A paying day whose key is free takes that key |
| BankPromises.InterestKeyDeposit | crates/graphite-economy/src/bank.rs:375-404 | A deposit under a key that interest has used, ending in the database error |
| BankPromises.SpendForever | crates/graphite-economy/src/wallet.rs:309-403 | After any run a repeated spend returns the same receipt and takes nothing, and another spend under its operation is refused |
| ActivityLevels.TotalIsSumOfCosts | crates/graphite-progression/src/progression.rs:884-913 | The three-piece closed form is the sum of the per-level costs, across both joins |
| ActivityLevels.TotalXpExact | crates/graphite-progression/src/progression.rs:493-495 | The total of a level is reported if and only if it fits i64 |
| ActivityLevels.ComputeActivityProgress | crates/graphite-progression/src/progression.rs:453-491 | On every non-negative i64 doubling and bisection end without error at the one level with total <= points < next total, with exact progress inside it |
| ActivityLevels.LevelsMonotone | crates/graphite-progression/src/progression.rs:453-491 | A point count has one level, and more points never mean a lower level |
| ActivityLevels.RebirthEffectBounded | crates/graphite-progression/src/progression.rs:915-950 | For every rebirth count the effect is in 0..=maximum and within half a unit of the maximum's share of the growth |
| ActivityLevels.PublishedEffectsBounded | crates/graphite-progression/src/progression.rs:512-526 | Both published effects exist and stay within their maxima for every rebirth count |
| ActivityLevels.PublishedEffectsNear | crates/graphite-progression/src/progression.rs:915-950 | For every rebirth count both effects are their published maximum times one minus the published decay to that power, to within half a unit and the error of the power |
| Sampling.DomainRng.SampleUniformBelow | crates/graphite-core/src/rng.rs:56-68 | The draw is the residue of the first accepted word, exactly the words up to it are consumed, and a zero bound consumes none |
| Sampling.DomainRng.SampleWeighted | crates/graphite-core/src/rng.rs:70-89 | The choice is the index whose interval holds the draw, its weight is positive, and the fall-through is unreachable |
| Sampling.AcceptedExactly | crates/graphite-core/src/rng.rs:61-66 | A set of residues is hit by exactly its size times one common number of accepted words |
| Sampling.UniformDraw | crates/graphite-core/src/rng.rs:56-68 | Each residue is hit by the same number of accepted words, and at least half of all words are accepted |
| Sampling.WeightedDraws | crates/graphite-core/src/rng.rs:78-87 | Index i owns exactly weights[i] of the draws below the total |
| Sampling.OwnerExists | crates/graphite-core/src/rng.rs:78-89 | Every draw below the total has an owner |
| Sampling.OneOwner | crates/graphite-core/src/rng.rs:78-89 | No draw has two owners |
| Sampling.WeightedDraw | crates/graphite-core/src/rng.rs:70-89 | Over the accepted words each index is returned in exact proportion to its weight |
| IntegerSqrt.ComputeIntegerSqrt | crates/graphite-services/src/fishing_numeric.rs:511-531 | For every 128-bit value, zero included, the shift loops end with the floor of the root |
| IntegerSqrt.FloorRootUnique | crates/graphite-services/src/fishing_numeric.rs:511-531 | There is only one such floor |
| FixedPoint.RoundedNearest | crates/graphite-services/src/fishing_numeric.rs:592-617 | Signed rounding is to the nearest, ties away from zero, odd, and never grows |
| FixedPoint.ComputeSqrtFixed | crates/graphite-services/src/fishing_numeric.rs:500-509 | The scaled root is the exact floor, with its domain and overflow errors |
| FixedPoint.ComputeNormalize | crates/graphite-services/src/fishing_numeric.rs:412-428 | Both normalisation loops end, and compute the specified mantissa and power |
| FixedPoint.ComputeNaturalLog | crates/graphite-services/src/fishing_numeric.rs:407-454 | The loops of the logarithm compute its specification, errors included |
| FixedPoint.ComputeExp | crates/graphite-services/src/fishing_numeric.rs:456-498 | The loops of the exponential, early stop and shift included, compute its specification |
| FixedPointRange.NormalRange | crates/graphite-services/src/fishing_numeric.rs:412-428 | For every positive i128 the mantissa ends in [S, 2S) and the power in [-40, 128] |
| FixedPointRange.LogRange | crates/graphite-services/src/fishing_numeric.rs:407-454 | The logarithm of every positive i128 exists and lies in a fixed band above its power of two |
| FixedPointRange.ExpRange | crates/graphite-services/src/fishing_numeric.rs:456-498 | The exponential is never negative, and exists for every argument of moderate size |
| FixedPointRange.PowRange | crates/graphite-services/src/fishing_numeric.rs:389-405 | The 1.3 power of every base the line break uses exists and is never negative |
| FixedPointLaws.LogDoubles | crates/graphite-services/src/fishing_numeric.rs:407-454 | Doubling any positive value adds exactly the logarithm of two |
| FixedPointLaws.ExpDoubles | crates/graphite-services/src/fishing_numeric.rs:456-498 | Adding the logarithm of two to any argument doubles the exponential to within one unit, the rounding tie included, and both exist on the moderate range |
| FixedPointSeries.MantissaNear | crates/graphite-services/src/fishing_numeric.rs:412-428 | The mantissa is the value times its power of two, exactly when scaled up and to within a unit when scaled down |
| FixedPointSeries.LogNear | crates/graphite-services/src/fishing_numeric.rs:407-454 | The logarithm of every positive i128 is its power of two times ln 2 and twice the odd series of 30 terms at its mantissa, to within ninety units of 10^-12 |
| FixedPointSeries.ExpNear | crates/graphite-services/src/fishing_numeric.rs:456-498 | The exponential is a power of two times the Taylor polynomial of 35 terms at the rest of the argument, which is at most half of ln 2, to within 72 units and the rounding of the shift |
| FixedPointAnchors.PowerOfOne | crates/graphite-services/src/fishing_numeric.rs:389-405 | Every power of one is one, to the last unit |
| FixedPointAnchors.TwiceTheStrength | crates/graphite-services/src/fishing_numeric.rs:250-324 | At twice the line strength, in any units, the chance is 17000 ppm, 15300 with Sturdy, uncapped |
| LineBreakTurn.ChanceForm | crates/graphite-services/src/fishing_numeric.rs:250-324 | For every ratio the base is the cap past the short circuit and otherwise 0.002 and 0.015 times the 1.3 power of the excess up to the cap, each step rounded to nearest; it is reported to the nearest ppm, and nine tenths of it with Sturdy |
| LineBreakTurn.OneAndAHalf | crates/graphite-services/src/fishing_numeric.rs:250-324 | At one and a half times the line strength, in any units, the chance is 8092 ppm, 7283 with Sturdy, uncapped |
| LineBreakTurn.TurnAtTwice | crates/graphite-services/src/fishing_numeric.rs:250-324 | For every ratio the base chance is at most 17000 ppm up to two and at least 17000 ppm from two on |
| LineBreakTurn.PowerSign | crates/graphite-services/src/fishing_numeric.rs:389-405 | The 1.3 power of every base is at most one up to one and at least one from there, to within thirty units |
| LineBreak.LineBreakContract | crates/graphite-services/src/fishing_numeric.rs:250-324 | For all ratios: exactly when it fails and how, base in [2000, 150000], Sturdy in [1800, 135000] and never above the base, and the cap reported if and only if the short circuit or the uncapped probability reaches it |
| LineBreak.RawRange | crates/graphite-services/src/fishing_numeric.rs:260-287 | Below the short circuit the raw probability exists unless the scaled excess overflows, and is at least the base |
| InverseNormal.InverseNormalTotal | crates/graphite-services/src/fishing_numeric.rs:346-387 | The inverse normal exists for every draw, tails included, and rejects every other number |
| InverseNormal.InverseNormalOdd | crates/graphite-services/src/fishing_numeric.rs:346-387 | Mirrored draws give opposite values over the whole draw range |
| InverseNormalSign.InverseNormalSign | crates/graphite-services/src/fishing_numeric.rs:346-387 | The value is positive on every draw from 500000 up and negative on every draw below |
| InverseNormalForm.MiddleForm | crates/graphite-services/src/fishing_numeric.rs:380-386 | In the middle the value is the rounded quotient of a numerator and a denominator within two units of the published polynomials on real numbers, at the rounded square of the distance from one half |
| InverseNormalForm.TailForm | crates/graphite-services/src/fishing_numeric.rs:349-360 | In a tail the same holds at the floor of the root of minus twice the logarithm, within 800 units of 10^-12 above and 130 below |
| InverseNormalForm.DrawForm | crates/graphite-services/src/fishing_numeric.rs:334-387 | Every draw is evaluated at the midpoint of its bucket, by the lower tail, the mirrored upper tail or the middle |
| InverseNormal.TailOk | crates/graphite-services/src/fishing_numeric.rs:349-378 | The tails never fail |
| InverseNormal.MiddleOk | crates/graphite-services/src/fishing_numeric.rs:380-386 | The middle never fails |
| InverseNormal.MiddleDenominator | crates/graphite-services/src/fishing_numeric.rs:380-386 | The rounded Horner denominator of the middle is positive on its whole range |
| InverseNormal.BendPositive | crates/graphite-services/src/fishing_numeric.rs:47-53 | The real polynomial behind that denominator is at least 0.002 there |
| Rationals.Gcd | crates/graphite-services/src/fishing_capability.rs:473-489 | The remainder loop computes Euclid's divisor |
| Rationals.GcdDivides | crates/graphite-services/src/fishing_capability.rs:482-489 | It divides both numbers |
| Rationals.GcdGreatest | crates/graphite-services/src/fishing_capability.rs:482-489 | Every common divisor divides it |
| Rationals.LowestTermsUnique | crates/graphite-services/src/fishing_capability.rs:286-385 | Equal fractions in lowest terms are the same pair |
| CatchLoad.TensionExact | crates/graphite-services/src/fishing_capability.rs:229-258 | A tension is weight times multiplier exactly, and fails exactly on zero weight or overflow |
| CatchLoad.ScaledTensionExact | crates/graphite-services/src/fishing_capability.rs:260-284 | The same for a canonical weight, which never overflows |
| CatchLoad.ComputeCatchLoad | crates/graphite-services/src/fishing_capability.rs:286-385 | The summing loop over one to five tensions computes its specification |
| CatchLoad.CatchLoadExact | crates/graphite-services/src/fishing_capability.rs:286-385 | For any tensions the load is the exact sum in lowest terms; it exists if and only if there are one to five fish and every partial sum over the least common denominator fits 128 bits, and the error says which |
| CatchLoad.CatchLoadOrderIrrelevant | crates/graphite-services/src/fishing_capability.rs:286-385 | Two orders of the same fish that both succeed give the same load; while the total fits, in particular for real fish, they always agree, errors included |
| CatchLoad.OrderCanOverflow | crates/graphite-services/src/fishing_capability.rs:286-331 | Outside real fish, three tensions whose sum exists in one order and overflows in another |
| CatchLoad.LineStrengthExact | crates/graphite-services/src/fishing_capability.rs:387-443 | Strength is base times (1 + 4% per level), and a tenth more with Sturdy, exactly |
| CatchLoad.WithinExactly | crates/graphite-services/src/fishing_capability.rs:445-471 | A load is within capability if and only if it is at most the strength, and the ratio is their exact quotient |
| CatchLoad.CapabilityExact | crates/graphite-services/src/fishing_capability.rs:229-471 | For every catch of one to five real fish on a legal rod the chain succeeds and classifies by the exact sum |
| CatchLoad.MoreFishStayOver | crates/graphite-services/src/fishing_capability.rs:286-471 | One more fish never turns over into within |
| OverCap.ChanceExact | crates/graphite-services/src/fishing_over_cap.rs:68-149 | The chance is the clamped formula exactly and in lowest terms, the bound tells which clamp applied, and each error has its cause |
| OverCap.ChanceBounded | crates/graphite-services/src/fishing_over_cap.rs:68-164 | Always between 15% and 95% |
| OverCap.ChanceMonotone | crates/graphite-services/src/fishing_over_cap.rs:68-149 | A higher ratio never raises it, a higher hook level never lowers it |
| OverCap.RealCatchResolves | crates/graphite-services/src/fishing_over_cap.rs:68-149 | For every over-cap catch of real fish on a legal rod both the landing chance and the line-break chance exist |
| Enchants.AtMostAll | crates/graphite-core/src/enchant.rs:3 | Distinct enchants number at most 54, the bound of the row queries |
| EnchantApply.ComputeValidateExistingState | crates/graphite-services/src/enchant_apply.rs:324-373 | The loop over rows and earlier rows computes the check, with its first error |
| EnchantApply.ComputePreviewBook | crates/graphite-services/src/enchant_apply.rs:200-283 | The preview's scan computes its specification, with its first error |
| EnchantApply.ValidateExact | crates/graphite-services/src/enchant_apply.rs:324-373 | The check accepts exactly the legal, conflict-free tables within capacity, and counts each family |
| EnchantApply.PreviewExact | crates/graphite-services/src/enchant_apply.rs:200-283 | Accepts if and only if level and placement are legal, nothing conflicts, and the enchant is new with a free slot or present at a lower level; and what it reports |
| EnchantApply.PreviewErrorTrue | crates/graphite-services/src/enchant_apply.rs:200-373 | Every error of the preview is true of its rows and its book, and the occupancy count never overflows |
| EnchantApply.ResultValid | crates/graphite-services/src/enchant_apply.rs:200-283 | The resulting rows pass the check with exactly the announced occupancy |
| EnchantApply.PreviewOrderIrrelevant | crates/graphite-services/src/enchant_apply.rs:200-373 | The order in which rows are read does not matter |
| EquipmentRuns.OneSurvivalEnchant | crates/graphite-items/src/equip_enchant_guard.rs:27-117 | In an invariant state a player's worn items hold at most one kind of survival enchant |
| EquipmentRuns.OneSlotPerItem | crates/graphite-items/src/lib.rs:601-812 | In an invariant state no item sits in two slots |
| EquipmentRuns.GuardExact | crates/graphite-items/src/equip_enchant_guard.rs:27-117 | The guard refuses if and only if the armor that would be worn holds two different survival enchants; its other errors are unreachable |
| EquipmentRuns.EquipExact | crates/graphite-items/src/lib.rs:601-736 | What equip means: the first of the named causes refuses it, a worn item stays, or one swap sends the displaced item to the locker; no integrity error is reachable |
| EquipmentRuns.EquipKeeps | crates/graphite-items/src/lib.rs:601-736 | Equip keeps the invariant |
| EquipmentRuns.UnequipExact | crates/graphite-items/src/lib.rs:738-812 | Unequip finds the one slot row of a worn item, and its integrity error is unreachable |
| EquipmentRuns.UnequipKeeps | crates/graphite-items/src/lib.rs:738-812 | Unequip keeps the invariant |
| EquipmentRuns.LoadoutExact | crates/graphite-services/src/enchant_apply_resolver.rs:207-428 | In an invariant state the worn loadout always validates; only a missing player or target is refused |
| EquipmentRuns.ApplyExact | crates/graphite-services/src/enchant_apply_resolver.rs:157-193 | What a book means: the first of the named causes refuses it, in order, or exactly the previewed change of this item's rows is made; no integrity error is reachable |
| EquipmentRuns.ApplyKeeps | crates/graphite-services/src/enchant_apply_resolver.rs:487-554 | Applying a book keeps the invariant, even to an unworn item without the sibling check |
| EquipmentRuns.RemoveExactly | crates/graphite-services/src/enchant_remove_resolver.rs:62-110 | Removal deletes exactly the named row at the expected level, or is refused |
| EquipmentRuns.RemoveKeeps | crates/graphite-services/src/enchant_remove_resolver.rs:62-110 | Removal keeps the invariant |
| EquipmentRuns.RunKeeps | crates/graphite-items/src/equip_enchant_guard.rs:27-117 | In every run slot rows and worn items stay one-to-one and worn armor never holds two different survival enchants |
| EquipmentReference.ConflictsAreFamilies | crates/graphite-core/src/enchant.rs:207-250 | Two enchants conflict if and only if they are different members of one of ten families, and across worn armor if and only if it is the survival family |
| EquipmentReference.CatalogExact | crates/graphite-services/src/enchant_placement.rs:84-145 | An enchant fits a piece of gear if and only if it is in that gear's own catalog, special, or unbreaking or mending |
| EquipmentReference.EquipExactly | crates/graphite-items/src/lib.rs:601-736 | Equip goes through if and only if none of the named causes holds, the clash being a different survival enchant on any other worn item; then the item is in its slot, the displaced one in the locker, and nothing else differs |
| EquipmentReference.UnequipExactly | crates/graphite-items/src/lib.rs:738-812 | Unequip goes through if and only if none of the named causes holds; then the item's own slot row is gone, the item is in the locker, and nothing else differs |
| EquipmentReference.AppliesExactly | crates/graphite-services/src/enchant_apply_resolver.rs:157-554 | A book is accepted if and only if player, target, capacity, level, placement, rows and worn siblings allow it, each written on the fields |
| EquipmentReference.ApplyWrites | crates/graphite-services/src/enchant_apply_resolver.rs:487-554 | An accepted book leaves exactly its own row at its own level on exactly its target, in place of a lower one if there was one |
| EquipmentReference.RemovesExactly | crates/graphite-services/src/enchant_remove_resolver.rs:62-110 | A removal goes through if and only if none of the named causes holds, and then deletes exactly the named row |
| EquipmentReference.LoadoutExactly | crates/graphite-services/src/enchant_apply_resolver.rs:207-428 | In any tables, reachable or not, the check of the worn armor passes if and only if player and target are there, every armor slot holds a sound item of the player, and no two survival enchants meet |
| EquipmentService.EquipmentTables.Equip | crates/graphite-items/src/lib.rs:601-736 | The keyed call: resolve or insert the operation, perform, commit, with replay and rollback, exactly as specified, keeping the invariant |
| EquipmentService.EquipmentTables.Unequip | crates/graphite-items/src/lib.rs:738-812 | The same for unequip |
| EquipmentService.EquipmentTables.EquipOwned | crates/graphite-items/src/lib.rs:627-708 | The statements between resolve and commit: slot row, displaced item and location, or an error without effect |
| EquipmentService.EquipmentTables.UnequipOwned | crates/graphite-items/src/lib.rs:764-787 | The same for unequip |
| EquipmentService.EquipmentTables.Resolve | crates/graphite-items/src/lib.rs:1068-1153 | Insert unless the key is taken, read back and validate: fresh, replay, or an error |
| EquipmentRequests.SubmitExact | crates/graphite-items/src/lib.rs:601-812 | A free key performs the mutation once, a used key returns its receipt to the same request and refuses every other, and no other operation error is reachable |
| EquipmentRequests.SubmitKeeps | crates/graphite-items/src/lib.rs:601-812 | A keyed call keeps the equipment invariant and the operation rows sound |
| EquipmentRequests.RunKeeps | crates/graphite-items/src/lib.rs:1124-1153 | In every run of keyed calls and the other writers the equipment invariant holds and finished rows never change |
| EquipmentRequests.SubmitForever | crates/graphite-items/src/lib.rs:1068-1153 | After any run, whatever is worn by then, a repeated request returns its receipt and moves nothing, and any other under its key is refused without effect |
| EquipmentService.EquipmentTables.GuardEquip | crates/graphite-items/src/equip_enchant_guard.rs:27-117 | The guard's pushes, limits and nested loops compute its specification |
| EquipmentService.EquipmentTables.LockLoadout | crates/graphite-services/src/enchant_apply_resolver.rs:207-385 | The loadout's loops compute its specification |
| EquipmentService.EquipmentTables.SiblingClashes | crates/graphite-services/src/enchant_apply_resolver.rs:430-452 | The nested loop finds a clash with a worn sibling if and only if there is one |
| EquipmentService.EquipmentTables.ApplyBook | crates/graphite-services/src/enchant_apply_resolver.rs:157-554 | The writer has exactly the specified effect and keeps the invariant |
| EquipmentService.EquipmentTables.RemoveExact | crates/graphite-services/src/enchant_remove_resolver.rs:62-110 | The remover has exactly the specified effect and keeps the invariant |
| StorageLaws.UsedExact | crates/graphite-items/src/lib.rs:1305-1421 | The program's checked counts and capacities are the real load and limit of the bag |
| StorageLaws.WithQuantitySums | crates/graphite-items/src/transactional_stack_consumption.rs:177-240 | Changing one stack changes its owner's slots and quantity by exactly the difference, and nobody else's |
| StorageRuns.PlaceStackExact | crates/graphite-items/src/transactional_stack.rs:160-255 | A delivered stack joins the bag if and only if the projected slots fit, and otherwise waits |
| StorageRuns.PlaceItemExact | crates/graphite-items/src/transactional_unique_item_bag.rs:242-304 | A single item enters the bag if and only if it fits, and otherwise waits in overflow with its pending row |
| StorageRuns.DeliverStackKeeps | crates/graphite-items/src/transactional_stack.rs:100-298 | A delivery keeps the invariant, records one event under its key that says what moved, and otherwise changes nothing |
| StorageRuns.ConsumeStackKeeps | crates/graphite-items/src/transactional_stack_consumption.rs:107-279 | The same for a consumption |
| StorageRuns.DeliverUniqueKeeps | crates/graphite-items/src/transactional_unique_item_bag.rs:141-350 | The same for a single item; open deliveries of a player to a bag stay those of one operation |
| StorageRuns.DeliverFishKeeps | crates/graphite-services/src/fishing_fish_delivery.rs:135-338 | The same for a fish, by weight |
| StorageClaims.ClaimExact | crates/graphite-items/src/transactional_unique_item_bag.rs:354-538 | A claim that acts moves exactly the longest prefix of the waiting line that fits, in order, and reports the first that does not; the integrity error is unreachable |
| StorageClaims.ClaimKeeps | crates/graphite-services/src/fishing_fish_delivery.rs:340-496 | A claim by slots or by weight keeps the invariant and everybody's holdings |
| StorageHistory.RunKeeps | crates/graphite-items/src/lib.rs:1335-1421 | In every run no bag exceeds its capacity, overflow items and open deliveries are one-to-one from a single operation per bag, and holdings are what was delivered less what was consumed |
| StorageReference.DeliverStackExactly | crates/graphite-items/src/transactional_stack.rs:100-298 | Under a free key a stack delivery succeeds if and only if none of the named causes holds, and the first is the error; it raises the stack when the bag has room, and otherwise appends exactly one open pending row with its receipt |
| StorageReference.ConsumeStackExactly | crates/graphite-items/src/transactional_stack_consumption.rs:107-279 | Under a free key a consumption succeeds if and only if none of the named causes holds, down to the last unit, and lowers exactly that stack by exactly its quantity |
| StorageReference.DeliverUniqueExactly | crates/graphite-items/src/transactional_unique_item_bag.rs:141-350 | Under a free key a single item is delivered if and only if none of the named causes holds: one new item, in the bag or in overflow with one open row |
| StorageReference.DeliverFishExactly | crates/graphite-services/src/fishing_fish_delivery.rs:135-338 | The same for a fish, by weight and slot of the cast |
| StorageReference.ClaimPendingExactly | crates/graphite-items/src/transactional_unique_item_bag.rs:354-538 | Under a free key a claim succeeds if and only if none of the named causes holds; it moves exactly the claimed items into the bag, closes exactly their rows, and touches no other row |
| StorageHistory.KeyedStep | crates/graphite-items/src/transactional_stack.rs:117-132 | A command under a used key changes nothing, and one that acts leaves its key used |
| StorageHistory.AtMostOnce | crates/graphite-items/src/transactional_stack.rs:117-132 | Of all commands of a run under one operation and key at most one has an effect |
| StorageHistory.KeysNeverShared | crates/graphite-items/src/transactional_stack.rs:325-362 | Once one kind of mutation has used a key, every other kind under it is refused without effect after any run, with the error its kind reports |
| StorageHistory.ClaimUnreadableExactly | crates/graphite-items/src/transactional_unique_item_bag.rs:373-406 | A claim reports an unreadable event if and only if its key holds an event of another kind on an operation that names the player, and changes nothing |
| StorageHistory.SharedKeyExample | crates/graphite-items/src/transactional_unique_item_bag.rs:373-406 | A delivery and a claim under one key, in both orders, with the error of each |
| StorageHistory.StackForever | crates/graphite-items/src/transactional_stack.rs:325-362 | After any run a repeated delivery returns the same receipt and changes nothing, and any other delivery under its key is a conflict without effect |
| StorageHistory.ConsumptionForever | crates/graphite-items/src/transactional_stack_consumption.rs:306-342 | The same for a consumption |
| StorageHistory.UniqueForever | crates/graphite-items/src/transactional_unique_item_bag.rs:565-602 | The same for a single item |
| StorageHistory.FishForever | crates/graphite-services/src/fishing_fish_delivery.rs:641-683 | The same for a fish |
| StorageHistory.ClaimForever | crates/graphite-services/src/fishing_fish_delivery.rs:498-546 | The same for a claim of either bag |
| StorageService.StorageTables.CountUsedSlots | crates/graphite-items/src/lib.rs:1335-1380 | The two counting loops compute the used slots, or overflow |
| StorageService.StorageTables.DeliverStack | crates/graphite-items/src/transactional_stack.rs:100-298 | The statements have exactly the specified effect and keep the invariant |
| StorageService.StorageTables.ConsumeStack | crates/graphite-items/src/transactional_stack_consumption.rs:107-279 | The same for a consumption |
| StorageService.StorageTables.DeliverUnique | crates/graphite-items/src/transactional_unique_item_bag.rs:141-350 | The same for a single item |
| StorageService.StorageTables.DeliverFish | crates/graphite-services/src/fishing_fish_delivery.rs:135-338 | The same for a fish |
| StorageService.StorageTables.MoveWaiting | crates/graphite-services/src/fishing_fish_delivery.rs:389-466 | The claim loop that moves items and closes rows one by one computes the specified claim |
| StorageService.StorageTables.ClaimPending | crates/graphite-items/src/transactional_unique_item_bag.rs:354-538 | The claim has exactly the specified effect, keeps the invariant, and rolls back a half-done move on an error |

## Left out

- Q32.PowError: says nothing about monotonicity in the exponent; rounding may break the last unit and the code promises none.
- FixedPointSeries.LogNear: measures the distance from the odd series of 30 terms, not from the real logarithm; FixedPointSeries.ExpNear likewise from the Taylor polynomial.
- InverseNormal.InverseNormalTotal: existence, symmetry and sign, not distance from the real inverse normal.
- Sampling.DomainRng.SampleUniformBelow: assumes that an accepted word lies ahead in the stream; on a stream without one the loop never returns, so there is no result to state.
- Sampling.DomainRng.SampleWeighted: the same assumption, for the draw it makes.
- Database text, JSON payloads, outbox rows, clock reads and random identifiers; request hashes are taken as injective, and a player's Discord number is the player's identity.
- The older direct stack delivery call under a request key: the insert-read-validate pattern of equip and unequip around the placement of stack deliveries.
- Account progression grants and rebirth writes: a finite threshold table and one counter.
- Frozen policy tables: book pools, shop eligibility, catalog prices, bait and treasure rows.
- Fish species and variant tables and the instance resolution built on them; fish weights are arbitrary positive gram counts.
- Slot-orb capacity changes, item upgrades, appraisal, smelting, settlement and moderation services.
- Item flags, provenance and source texts beyond their validation and their part in a replay's comparison.
- The Discord bot, command parsing, settings, terms of service, identity hashing, the content registry and read-only snapshots.
- Concurrency below the level of a transaction: isolation anomalies, deadlocks and retries of the database.
