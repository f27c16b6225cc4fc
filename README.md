# pychain: a verified model of the proof-of-work chain engine

This project models the core of `blockchain.py`, a single-node
proof-of-work blockchain. It covers four things:

- **Blocks.** A block hashes its own fields. `mine_block` searches for a
  nonce until the hash starts with `difficulty` zero characters.
- **The chain.** `Blockchain` starts with a fixed genesis block. `add_block`
  links a new block to the tip, mines it, records how long mining took and
  pays the miner a reward.
- **Two periodic corrections.** The reward halves every `halving_interval`
  blocks. The difficulty moves by one every `difficulty_correction_interval`
  blocks, depending on how the mean mining time compares with the target.
- **Validation.** `is_valid_chain` rehashes every block after genesis and
  checks each block's link to its predecessor.

The project has four modules, one file each:

- `Digests` (`digests.dfy`): the digest type and the exact Python slice semantics of the mining test `hash[:d] == '0' * d`, for every integer `d`.
- `Ledger` (`ledger.dfy`): wallets as a map from address to balance, and the reward credit.
- `Schedule` (`schedule.dfy`): the halving schedule, the difficulty controller, and the bookkeeping predicate `Scheduled` that ties both to the tip index.
- `Chain` (`chain.dfy`): the `Block` class, whose `MineBlock` loop updates `nonce` and `hash` in place, and the `Blockchain` class.
  - `Blockchain`'s fields (`chain`, `time`, `difficulty`, `rewardAmount`, `wallets`) are updated by its methods.
  - The object invariant `Valid()` says two things. First, the chain is linked: block j has index j, stores its own hash, links to block j - 1, and block 0 is the genesis block. Second, the time list and the reward match the schedule for the tip's index.

SHA-256 is the parameter `sha: Hash`, an arbitrary total function from a
block's hashed fields to a 64-character lower-case hexadecimal string. The
wall-clock readings are also parameters: `AddBlock` takes the new block's
timestamp and the elapsed mining time in milliseconds, and the constructor
takes the genesis timestamp. Mining times are integer milliseconds and
rewards and balances are exact reals. The controller rounds the mean mining
time and the bounds `1.2 * target` and `0.8 * target` to three decimals of a
second before comparing them, as the source does. With times and the target
in milliseconds, that rounding is `Schedule.RoundDiv`: the nearest whole
millisecond, with exact halves going to the even neighbour.
`NewDifficultyFollowsMean` relates the rounded verdict to the exact mean.

## Model

| member | source | states |
|---|---|---|
| Digests.SlicePrefix | blockchain.py:45 | `s[:d]` keeps the first `d` characters for `d >= 0` (all of `s` if `d` is longer) and drops the last `-d` characters for `d < 0`; the result is always a prefix of `s` |
| Digests.LeadingZeros | blockchain.py:45 | for `d >= 0` the mining test holds exactly when the hash has at least `d` characters and the first `d` are all `'0'` |
| Digests.Zeros | blockchain.py:45 | `'0' * n` is n zero characters for n > 0 and the empty string for n <= 0 |
| Digests.MeetsDifficulty | blockchain.py:45 | the mining exit test `hash[:d] == '0' * d` for every integer d; its meaning is given by the lemmas below |
| Digests.ZeroDifficultyAlwaysMet | blockchain.py:45 | difficulty 0 accepts every hash. Together with `MineBlock`'s clause that an advanced nonce means the old hash failed, mining at difficulty 0 keeps the initial nonce |
| Digests.DifficultyMonotone | blockchain.py:45 | a hash that meets difficulty `d` meets every difficulty between 0 and `d` |
| Digests.OverlongDifficultyNeverMet | blockchain.py:45 | no 64-character digest meets a difficulty above 64 |
| Digests.NegativeDifficultyNeverMet | blockchain.py:45 | for `-64 < d < 0` no digest meets the test: the slice is non-empty while `'0' * d` is empty |
| Digests.VeryNegativeDifficultyAlwaysMet | blockchain.py:45 | for `d <= -64` the slice is empty and every digest meets the test |
| Ledger.Credit | blockchain.py:87-92 | after a credit the address is a wallet, its balance is the old balance (0 for a wallet that did not exist) plus the amount, the wallet set grows by exactly that address, and every other balance is unchanged |
| Ledger.RepeatedCreditAdds | blockchain.py:10-11 | k credits of a constant amount r add exactly k·r to the credited balance, add at most that one address, and leave every other balance unchanged |
| Ledger.FiveRewardsOfFifty | blockchain.py:87-92 | five payouts of 50 to a new address leave it a balance of 250 |
| Schedule.RewardAt | blockchain.py:119 | the reward `initial / 2 ** (index // interval)` once the tip has the given index |
| Schedule.RewardBounds | blockchain.py:117-120 | the scheduled reward `initial / 2 ** (index // interval)` lies in `(0, initial]` when the initial reward is positive, and is 0 when it is 0 |
| Schedule.RewardHalves | blockchain.py:119 | one halving interval later the scheduled reward is exactly half |
| Schedule.RewardConstantInPeriod | blockchain.py:84 | inside a halving period (index not a multiple of the interval) the scheduled reward equals the previous index's, so skipping `calculate_new_reward` there keeps the schedule |
| Schedule.RewardExamples | blockchain.py:117-120 | with initial reward 50 and interval 10 the reward is 50 at index 9, 25 at index 10 and 12.5 at index 20 |
| Schedule.ScheduledStep | blockchain.py:82-85 | one append keeps the bookkeeping. The time list is cleared exactly when the new index starts a correction period, and it then holds exactly `difficulty_correction_interval` entries. The reward is recomputed exactly when the new index starts a halving period |
| Schedule.Sum | blockchain.py:108 | `sum(self.time)`; the sum of non-negative times is non-negative |
| Schedule.RoundDiv | blockchain.py:109 | `round(a / b)` on the exact quotient: the result is within one half of a / b, and it is even when a / b lies exactly half-way between two integers |
| Schedule.RoundHalfToEven | blockchain.py:109 | halves go to the even neighbour, as Python's `round` does: 2.5 → 2, 3.5 → 4, -2.5 → -2 |
| Schedule.RoundedAbove | blockchain.py:109-112 | a mean more than one millisecond above a bound still rounds above the rounded bound |
| Schedule.RoundedBelow | blockchain.py:109-113 | a mean more than one millisecond below a bound still rounds below the rounded bound |
| Schedule.CompareMean | blockchain.py:108-113 | comparing the exact mean `s / n` with a fraction `num / den` is the same as comparing `den * s` with `num * n` |
| Schedule.NewDifficulty | blockchain.py:107-115 | the corrected difficulty is always within one of the old one |
| Schedule.NewDifficultyFollowsMean | blockchain.py:107-115 | the new difficulty is one less when the exact mean mining time exceeds 1.2 × target by more than 1 ms. It is one more when the mean is more than 1 ms below 0.8 × target (for a non-negative target). It is unchanged when the mean is more than 1 ms inside both bounds |
| Schedule.SlowPeriod | blockchain.py:112 | a mean more than 1 ms above 1.2 × target lowers the difficulty by one |
| Schedule.FastPeriod | blockchain.py:113 | for a non-negative target, a mean more than 1 ms below 0.8 × target raises the difficulty by one |
| Schedule.OnTargetPeriod | blockchain.py:112-113 | a mean more than 1 ms inside both bounds leaves the difficulty unchanged |
| Schedule.RoundedMeanAtBound | blockchain.py:109-112 | times of 2400, 2400 and 2401 ms at target 2000 ms have an exact mean above 2400 ms, but it rounds to the rounded bound 2400 ms, so the difficulty stays the same |
| Schedule.DifficultyExamples | blockchain.py:112-113 | with target 2 s, mean times of 3 s, 1 s and 2 s give d - 1, d + 1 and d |
| Schedule.DifficultyCanGoNegative | blockchain.py:112 | the controller has no floor: from difficulty 0 one slow period gives -1 |
| Chain.Block.CalculateHash | blockchain.py:38-42 | the hash of a block's index, timestamp, data, predecessor hash and current nonce; the miner address does not enter it |
| Chain.BlockRecord.CalculateHash | blockchain.py:38-42 | the same hash, recomputed from a block stored in the chain |
| Chain.Block.constructor | blockchain.py:29-36 | a new block holds the given fields and stores the hash of its own fields |
| Chain.Block.MineBlock | blockchain.py:44-47 | on exit the hash meets the difficulty, and for `d >= 0` its first `d` characters are `'0'`. The nonce never decreases and, when it advanced, the hash is the block's own recomputation. Every nonce skipped was rejected, so a consistent block ends with the least passing nonce. The other fields are constants |
| Chain.NegativeDifficultyUnmineable | blockchain.py:45 | at a difficulty between -64 and -1 no nonce passes the test, so `MineBlock`'s precondition cannot hold and the source loop never exits |
| Chain.MineBlockOnto | blockchain.py:73-78 | the block `add_block` builds and mines has the next index, the tip's hash as predecessor, the given data and miner, a consistent hash, and the least non-negative nonce meeting the difficulty |
| Chain.LinkedAppend | blockchain.py:72-81 | appending a consistently hashed block with the next index, the tip's hash and a miner keeps the chain linked |
| Chain.LinkedChainIsValid | blockchain.py:97-105 | every linked chain passes the validation checks |
| Chain.TipHasHighestIndex | blockchain.py:94-95 | on a linked chain, block j has index j, and the last block has both index `len - 1` and the highest index |
| Chain.GenesisContentNotChecked | blockchain.py:97-105 | validation ignores the genesis block except for its stored hash: replacing it by any block with that hash leaves the verdict unchanged |
| Chain.TamperingDetected | blockchain.py:101-102 | a block after genesis that no longer rehashes to its stored hash makes validation fail |
| Chain.Blockchain.constructor | blockchain.py:56-66 | a new chain satisfies the invariant, holds only the genesis block (index 0, data "Genesis Block", predecessor "0", no miner, nonce 0), has an empty time list and the initial reward, and keeps the given parameters |
| Chain.Blockchain.CreateGenesisBlock | blockchain.py:68-70 | appends exactly one block and keeps the earlier ones. The new block is the genesis block with the given timestamp, nonce 0 and the hash of its own fields |
| Chain.Blockchain.GetLatestBlock | blockchain.py:94-95 | returns the last block, which on a linked chain has index `len - 1` |
| Chain.Blockchain.PayoutReward | blockchain.py:87-92 | the wallets become the credit of the current reward to the miner (see `Ledger.Credit`); nothing else changes |
| Chain.Blockchain.IsValidChain | blockchain.py:97-105 | returns true exactly when every block after genesis rehashes to its stored hash and stores its predecessor's hash |
| Chain.Blockchain.ValidChainPassesValidation | blockchain.py:97-105 | every chain built by the constructor and `AddBlock` passes validation |
| Chain.Blockchain.CalculateNewDifficulty | blockchain.py:107-115 | the difficulty becomes the controller's value for the recorded times (see `Schedule.NewDifficultyFollowsMean`) and the time list is empty afterwards |
| Chain.Blockchain.CalculateNewReward | blockchain.py:117-120 | the reward becomes `initial / 2 ** (tip index // halving_interval)` |
| Chain.Blockchain.RewardStaysPositive | blockchain.py:117-120 | on a valid chain with a positive initial reward the current reward is positive and at most the initial reward |
| Chain.Blockchain.AddBlock | blockchain.py:72-85 | keeps the invariant and appends exactly one block, leaving the earlier blocks unchanged. The new block has the next index, the old tip's hash, the given data, timestamp and miner, and the least passing nonce at the old difficulty. The miner is credited the old reward. The time list gains the elapsed time, or is cleared when the new index is a multiple of the correction interval (it then held exactly that many entries). The reward is rescheduled and the difficulty corrected exactly when the new index is a multiple of the respective interval |

## Left out

- SHA-256 itself and the rendering of the fields as one UTF-8 string before hashing (blockchain.py:39-42). The hash is an arbitrary function of the five hashed fields. No claim relies on it being injective, so every result also holds for a hash that only sees the concatenated string.
- Chain.Block.MineBlock: requires that some nonce from the current one on passes the test, which is exactly when the source loop terminates. It does not model the non-terminating runs, and it makes no claim about how many iterations mining takes.
- Chain.Blockchain.AddBlock: requires that a passing non-negative nonce exists, for the same reason. At a difficulty between -64 and -1 none exists (`Chain.NegativeDifficultyUnmineable`), and the controller can reach such a difficulty (`Schedule.DifficultyCanGoNegative`). So the model records that `calculate_new_difficulty` does not keep mining possible, rather than proving anything about the diverging case.
- Chain.Blockchain.constructor: requires both intervals to be positive. With an interval of 0 the source raises ZeroDivisionError at the first `%`. Negative intervals, where Python's floor division would make the reward grow, are not modelled.
- Chain.Blockchain.CalculateNewDifficulty: requires a non-empty time list. The source divides by zero otherwise, and `add_block` only calls it right after appending a time.
- Chain.Blockchain.CalculateNewReward: requires a positive halving interval and a non-negative tip index; both hold on every valid chain.
- The chain stores each mined block as an immutable value (`Chain.BlockRecord`), taken from the `Block` object once mining ends. The source stores the `Block` object itself. Nothing in the core mutates a block after it is appended, but aliasing of a block object shared with outside code is not modelled.
- `time.time()` and the measurement of elapsed time (blockchain.py:69, 75-79). The caller supplies them, and the elapsed time is a whole number of milliseconds, which the rounding at blockchain.py:79 produces.
- Schedule.NewDifficulty: rounds the exact rational mean and bounds. The source rounds IEEE floats: the times are summed in floating point, and `round` sees the binary value nearest to the quotient. So when the exact mean or bound lies exactly on, or within floating-point error of, a half millisecond, the source can round the other way.
- Rewards and balances are exact reals, not IEEE floats. `Wallet` is reduced to its balance: its address field, dunder methods and `__repr__` (blockchain.py:5-26) carry no chain logic.
- All `print` calls, every `__repr__`, `Block.__hash__` (blockchain.py:52-53), the demo driver and `uuid4` (blockchain.py:125-139): diagnostics, broken protocol overrides, I/O and randomness.
- The shared mutable default `wallets={}` (blockchain.py:56): Python aliasing across instances. The constructor takes the initial wallets as a value.
- The constructor's default arguments (blockchain.py:56) are not modelled; every parameter is passed explicitly.
