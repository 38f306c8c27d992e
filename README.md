# Pool rewards keeper, modelled in Dafny

This project models one run of the UniDex pool-rewards keeper (`script.ts`). A run has five steps:

1. It asks an indexer for the deposits of one pool currency and deduplicates the depositor addresses.
2. It queries every depositor's balance on the pool contract. It adds up the balances that could be fetched into `totalStaked` and records them in the `userStakes` table.
3. It allocates `floor(stake * R / totalStaked)` wei to every depositor with a non-zero stake. `R` is `parseEther(TOTAL_REWARD)`. The share is stored as ether text (`formatEther`).
4. It parses those texts back into wei.
5. It makes one `disperseEther(recipients, values)` call that carries the whole `R`.

The modules follow these stages:

- `Wrappers`: `Option` and `Result`.
- `EtherUnits`: `formatEther` and `parseEther`. They are ethers v5's fixed-point conversions with 18 decimals, over unbounded integers. The module proves their round trip.
- `Depositors`: `fetchUniqueDepositors`. `Array.from(new Set(...))` keeps each address where it first occurs.
- `Stakes`: the `userStakes` table and the aggregation loop. The table is an insertion-ordered key list plus a map, because JavaScript iterates non-numeric keys in insertion order.
- `Allocation`: one share, the allocation loop, bounded conservation and proportionality.
- `Dispersal`: the loop that builds `recipients` and `values`.
- `Keeper`: the whole run, checked against a reference payout defined directly from the depositors and the balance oracle.

## Inputs

Every outside effect is an input:

- The indexer's answer is `Option<seq<Deposit>>`. `None` means the request failed, or `data.data.Deposits` could not be read.
- The balance query is a function `Address -> Option<nat>`. `None` means the RPC call threw. Each address is queried at most once, because the list is deduplicated first. A function is therefore as general as a sequence of per-call answers.
- `TOTAL_REWARD` is a string.
- The ledger's verdict on the one transaction is a predicate on the recorded call.

## Behaviour of the code worth knowing

- **Zero stakes stay in the table.** A depositor whose balance is zero keeps an entry with `rewardShare == ""`. It is left out only while the call is built (`script.ts:123`).
- **An empty run still sends a transaction.** Examples are a failed indexer request, or all balances being zero. The call then goes out with empty lists and the full reward attached, because there is no guard. `Keeper.FetchActualDeposits` and `Keeper.PayoutProperties` state this: for a reward in range the outcome is a sent call, and its lists are as long as the list of staked depositors.
- **A negative reward is allocated, then refused when sent.** `parseEther` accepts a leading `-`, and BigNumber division truncates toward zero, so the shares are the negated floors. ethers then refuses to encode a negative amount, so no transaction goes out. The same holds for an amount of 2^256 or more. `Keeper.EncodableIff` shows that this happens exactly when the reward is not a `uint256`, because every share lies between zero and the reward.

## Model

| member | source | states |
|---|---|---|
| Depositors.FirstSeen | script.ts:62 | the result has no repeated address and contains exactly the addresses of the input |
| Depositors.FirstSeenOrder | script.ts:62 | addresses appear in the order of their first occurrence in the input |
| Depositors.FirstSeenOfDistinct | script.ts:62 | a list without repeats comes back unchanged |
| Depositors.FirstSeenAppend | script.ts:62 | one more element is appended to the deduplication exactly when it was not seen before |
| Depositors.FetchUniqueDepositors | script.ts:59-66 | distinct addresses, exactly those of some deposit record; a failed request gives the empty list |
| Stakes.Put | script.ts:81 | assigning a key updates its value; an existing key keeps its place in iteration order and a new key goes last; the table stays well formed |
| Stakes.Fetched | script.ts:77-85 | the users whose balance query succeeded: exactly those, without repeats when the input has none |
| Stakes.AggregateStakes | script.ts:71-85 | the table has an entry exactly for the depositors whose query succeeded, each `{stake: balance, rewardShare: ""}`, keys in first-seen query order; `totalStaked` is the sum of the fetched balances and equals the sum of the table's stakes; every stake is at most `totalStaked` |
| Stakes.PrefixStep | script.ts:77-80 | querying one more user extends the fetched users by it exactly when its query succeeds, and the running total by its balance |
| Stakes.FetchedStep | script.ts:79-81 | a successful query keeps the loop state: the user is recorded with its balance and the total grows by it |
| Stakes.FailedStep | script.ts:82-84 | a failed query keeps the loop state without changing table or total |
| Stakes.AggregatedFacts | script.ts:77-85 | after the loop: entries exactly for the users whose query succeeded, each stake at most the total, and for distinct users the table's stakes add up to the total |
| Stakes.FetchedBelowTotal | script.ts:80 | every fetched balance is at most the running total, so a non-zero stake makes `totalStaked` positive |
| Stakes.SumOfFetched | script.ts:80-81 | the stakes recorded for the fetched users add up to `totalStaked` |
| Allocation.Share | script.ts:93-95 | `stake.mul(R).div(totalStaked)`: its magnitude is the floor of `stake * abs(R) / totalStaked` (both defining inequalities), its sign is R's, and it is at most abs(R) when the stake is at most the total |
| Allocation.FloorShare | script.ts:93-95 | the floor of `stake * reward / total` by its two defining inequalities, at most the reward when the stake is at most the total |
| Allocation.QuotientBelow | script.ts:93-95 | a floor quotient of a stake no larger than the total is at most the reward |
| Allocation.FloorRemainders | script.ts:93-95 | summed over any stakes, `total * sum(shares) <= R * sum(stakes) <= total * sum(shares) + n * (total - 1)` |
| Allocation.Conservation | script.ts:88-99 | when the total is the sum of the stakes, the shares add up to at most R and fall short of R by less than the number of stakes |
| Allocation.Proportionality | script.ts:93-95 | for two positive stakes a, b with shares ra, rb: `-b < ra*b - rb*a < a` |
| Allocation.AllocateRewards | script.ts:88-99 | same keys in the same order, same stakes; every zero-stake entry is untouched (its share stays as it was); every non-zero entry gets `formatEther(Share(stake, R, totalStaked))` |
| Allocation.ShareText | script.ts:96-97 | the text stored as `rewardShare` (`formatEther` of the share) parses back to exactly the share |
| Allocation.Allocated | script.ts:89-97 | a visited entry keeps its stake; a zero-stake entry is unchanged; a non-zero entry's new text parses back to its share |
| Allocation.RewardStep | script.ts:89-97 | visiting a non-zero entry (whose stake makes the total positive) stores its share text and keeps the loop state |
| Allocation.SkipStep | script.ts:89 | visiting a zero entry changes nothing |
| Allocation.AllocationDone | script.ts:88-99 | after the loop the table has the same keys and every entry is the allocated version of its old entry |
| EtherUnits.Decimal | script.ts:96-97 | the decimal digits of a natural number: only digits, at least one, no leading zero |
| EtherUnits.DecimalValue | script.ts:96-97 | reading the digits of `Decimal(n)` gives back n |
| EtherUnits.DecimalLength | script.ts:96-97 | a number below 10^k has at most k digits |
| EtherUnits.TrimTrailingZeros | script.ts:96-97 | the result is a prefix of the input that does not end in `0` |
| EtherUnits.TrimmedZeros | script.ts:96-97 | a text is its trimmed prefix followed by zeros |
| EtherUnits.Split | script.ts:125-127 | `split(sep)`: at least one part, no part contains the separator, and every part's characters come from the input |
| EtherUnits.SplitAtSeparator | script.ts:125-127 | a text with exactly one separator splits into the two sides |
| EtherUnits.JoinSplit | script.ts:125-127 | joining the parts of a split with the separator gives back the text |
| EtherUnits.SplitCount | script.ts:125-127 | a split has exactly one part more than the text has separators |
| EtherUnits.FractionRoundTrip | script.ts:125-127 | the fraction text `formatEther` writes (padded to 18 digits, trailing zeros trimmed, `0` if empty) parses back, padded to 18 digits on the right, to the same remainder |
| EtherUnits.RemainderDigits | script.ts:96-97 | a remainder modulo 10^18 has at most 18 digits |
| EtherUnits.PaddedFraction | script.ts:96-97 | the remainder left-padded to 18 digits still denotes the remainder |
| EtherUnits.TrimPadRoundTrip | script.ts:125-127 | trimming an 18-digit fraction for printing and padding it again on parsing gives back the same 18 digits |
| EtherUnits.ParseParts | script.ts:125-127 | `whole.fraction` with at most 18 significant fraction digits parses to `whole * 10^18 + fraction` |
| EtherUnits.UnsignedRoundTrip | script.ts:125-127 | `formatEther` of a non-negative amount uses only digits and one dot and parses back to the amount |
| EtherUnits.EtherRoundTrip | script.ts:125-127 | `ParseEther(FormatEther(x)) == Some(x)` for every integer amount x, negative ones included: the values pushed at dispersal are the shares computed at allocation |
| EtherUnits.FormatEtherSign | script.ts:96-97 | `FormatEther` (built on `FormatUnsigned`) prints text that `parseEther` accepts, starting with `-` exactly when the amount is negative |
| EtherUnits.ParseEtherDots | script.ts:90-91 | `ParseEther` (built on `ParseUnsigned`) rejects any text with two or more dots, such as `1.2.3` |
| EtherUnits.ParseEtherTooPrecise | script.ts:90-91 | `ParseEther` rejects `whole.fraction` whose fraction has more than 18 significant digits |
| EtherUnits.ParseEtherNegated | script.ts:90-91 | a leading `-` on an accepted unsigned text negates its amount |
| Dispersal.StakedUsers | script.ts:122-124 | the table's users with a non-zero stake, exactly those, without repeats |
| Dispersal.DisperseRewards | script.ts:118-137 | success exactly when every staked share text parses; then `recipients` is the non-zero-stake users in iteration order, `values` has the same length, and `values[i]` is the parse of `recipients[i]`'s share; the call carries the whole `parseEther(TOTAL_REWARD)`; on failure the reported user is a staked user whose share does not parse |
| Dispersal.PushStep | script.ts:122-124 | one more user extends the staked prefix by that user exactly when its stake is non-zero |
| Dispersal.PushShare | script.ts:123-128 | a staked user whose share parses is pushed with its parsed value, keeping the lists aligned |
| Dispersal.PassZero | script.ts:123 | a zero-stake user is passed over |
| Dispersal.RejectedShare | script.ts:125-127 | a user whose share fails to parse is a staked user of the table |
| Dispersal.BuiltAll | script.ts:122-130 | after the loop the recipients are all staked users and every one of their shares parsed |
| Keeper.Staked | script.ts:89 | the depositors with a fetched non-zero balance, exactly those |
| Keeper.StakedSum | script.ts:80 | the sum of all fetched balances equals the sum of the staked depositors' balances |
| Keeper.StakedUsersOfTable | script.ts:122-124 | the non-zero entries of the aggregated table, in iteration order, are the depositors with a fetched non-zero balance, in query order |
| Keeper.StakedDistinct | script.ts:122-124 | the staked depositors have no repeats when the depositors have none |
| Keeper.PayoutProperties | script.ts:118-137 | the reference payout `Keeper.Payout`: lists of equal length; recipients are exactly the depositors with a fetched non-zero balance, without repeats; value i is the floor share of recipient i against a positive total; the whole reward is carried; for a non-negative reward the values add up to at most R and fall short by less than the number of recipients |
| Keeper.EncodableIff | script.ts:133-137 | the reference payout can be encoded (every value and the carried value in the `uint256` range) exactly when the reward is in that range |
| Keeper.DispersalIsPayout | script.ts:119-137 | the call built from the allocated table is the reference payout |
| Keeper.FetchActualDeposits | script.ts:69-137 | an unparsable `TOTAL_REWARD` stops the run before any transaction; a reward outside the `uint256` range stops it when the call is encoded; otherwise exactly one call, the reference payout, is sent, and it is confirmed or reverted as the ledger decides; a stored share never fails to parse |

## Left out

- The GraphQL request through axios (`script.ts:50-61`) is network I/O. Its result, or its failure, is an input.
- `getCurrencyBalance` (`script.ts:79`) is a contract call. It is the input function `Address -> Option<nat>`.
- The following are signing and broadcast plumbing, and the transaction is a recorded `DisperseCall` judged by the ledger predicate:
  - the provider, wallet and contract objects (`script.ts:31-39`);
  - `connect`, `tx.hash` and `tx.wait` (`script.ts:133-141`).
- dotenv loading, the environment variables other than `TOTAL_REWARD`, and the ABI literals (`script.ts:1-29`) are configuration.
- Console logging, including `formatUnits` on `script.ts:102-112`, has no effect on the run.
- `async`/`await` are left out. The run is strictly sequential, so it is modelled as sequential code.
- Keeper.FetchActualDeposits: evaluates `parseEther(TOTAL_REWARD)` once, before allocation. The code evaluates it once per non-zero entry (`script.ts:90`) and again for the call (`script.ts:136`). The text is the same each time. In both versions an unparsable text throws before any transaction is sent, so the outcome is the same. The logging that happens before the throw is not modelled.
- BigNumber arithmetic is arbitrary-precision, as the integers here are, so `stake * R` is never range-checked. The one range check, `uint256` for `values` and the carried value, is modelled by `Keeper.Encodable`. The bytes of the ABI encoding, and which of the two amounts ethers checks first, are not modelled: either way it throws before anything is sent.
- The ethers library's own source is not part of this model. `formatEther` and `parseEther` follow the documented ethers v5 behaviour of `formatFixed` and `parseFixed` with 18 decimals:
  - `formatEther` writes the whole part, a dot, and the fraction padded to 18 digits with trailing zeros trimmed (at least `0`), with a leading `-` for negative amounts;
  - `parseEther` accepts `-?[0-9.]+` with at most one dot and at most 18 significant fraction digits, and rejects a lone `.`.
- Address keys are assumed not to look like array indices. JavaScript moves such keys to the front of an object's iteration order, whereas hexadecimal addresses iterate in insertion order.
- Addresses are compared as exact strings. No checksum or case normalisation is applied, as in the code.
