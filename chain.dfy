/**
 The chain engine: blocks that hash their own fields and are mined in place,
 and a single-node chain that appends mined blocks, pays the miner, halves the
 reward and retunes the difficulty.
 */
module Chain {
  import opened Digests
  import opened Ledger
  import opened Schedule

  datatype Option<T> = None | Some(value: T)

  const GENESIS_DATA := "Genesis Block"
  const GENESIS_PREVIOUS_HASH := "0"

  /** A block as it stands in the chain once it has been mined. */
  datatype BlockRecord = BlockRecord(index: int, timestamp: real, data: string, previousHash: string,
                                     minerAddress: Option<Address>, nonce: int, hash: Digest)
  {
    /** The five hashed fields. */
    function Input(): HashInput {
      HashInput(index, timestamp, data, previousHash, nonce)
    }

    function CalculateHash(sha: Hash): Digest {
      sha(Input())
    }
  }

  /**
   A block under construction. Only the nonce and the hash change after
   construction (during mining); the other fields are fixed when it is built.
   */
  class Block {
    const index: int
    const timestamp: real
    const data: string
    const previousHash: string
    const minerAddress: Option<Address>
    var nonce: int
    var hash: Digest

    /** The hashed fields with a given nonce in place of the current one. */
    function InputWith(n: int): HashInput {
      HashInput(index, timestamp, data, previousHash, n)
    }

    function CalculateHash(sha: Hash): Digest
      reads this
    {
      sha(InputWith(nonce))
    }

    /** The block's current field values. */
    function Record(): (r: BlockRecord)
      reads this
    {
      BlockRecord(index, timestamp, data, previousHash, minerAddress, nonce, hash)
    }

    /** A new block stores the hash of its own fields. */
    constructor (index: int, timestamp: real, data: string, previousHash: string,
                 minerAddress: Option<Address>, nonce: int, sha: Hash)
      ensures this.index == index && this.timestamp == timestamp && this.data == data
      ensures this.previousHash == previousHash && this.minerAddress == minerAddress
      ensures this.nonce == nonce
      ensures hash == CalculateHash(sha)
    {
      this.index := index;
      this.timestamp := timestamp;
      this.data := data;
      this.previousHash := previousHash;
      this.minerAddress := minerAddress;
      this.nonce := nonce;
      new;
      hash := CalculateHash(sha);
    }

    /**
     Proof-of-work search: bump the nonce and rehash until the hash meets the
     difficulty. The search ends exactly when some nonce from the current one
     on meets it, which is what the precondition says; the nonce found is the
     first such one.
     */
    method MineBlock(difficulty: int, sha: Hash)
      requires MeetsDifficulty(hash, difficulty)
            || exists n :: n > nonce && NonceMeets(sha, InputWith(n), difficulty)
      modifies this
      ensures MeetsDifficulty(hash, difficulty)
      ensures difficulty >= 0 ==> forall i :: 0 <= i < difficulty ==> hash[i] == '0'
      ensures old(nonce) <= nonce
      ensures nonce == old(nonce) ==> hash == old(hash)
      ensures nonce > old(nonce) ==> hash == CalculateHash(sha) && !MeetsDifficulty(old(hash), difficulty)
      ensures forall n :: old(nonce) < n < nonce ==> !NonceMeets(sha, InputWith(n), difficulty)
      ensures old(hash == CalculateHash(sha)) ==> hash == CalculateHash(sha)
      ensures old(hash == CalculateHash(sha)) ==>
                forall n :: old(nonce) <= n < nonce ==> !NonceMeets(sha, InputWith(n), difficulty)
    {
      ghost var goal: int;
      if MeetsDifficulty(hash, difficulty) {
        goal := nonce;
      } else {
        goal :| goal > nonce && NonceMeets(sha, InputWith(goal), difficulty);
      }
      while !MeetsDifficulty(hash, difficulty)
        invariant old(nonce) <= nonce <= goal
        invariant nonce > old(nonce) ==> hash == sha(InputWith(nonce)) && !MeetsDifficulty(old(hash), difficulty)
        invariant nonce == old(nonce) ==> hash == old(hash)
        invariant nonce == goal ==> MeetsDifficulty(hash, difficulty)
        invariant nonce < goal ==> NonceMeets(sha, InputWith(goal), difficulty)
        invariant forall n :: old(nonce) < n < nonce ==> !NonceMeets(sha, InputWith(n), difficulty)
        decreases goal - nonce
      {
        nonce := nonce + 1;
        hash := CalculateHash(sha);
      }
      if difficulty >= 0 {
        LeadingZeros(hash, difficulty);
      }
    }
  }

  /** The fixed first block: index 0, sentinel predecessor "0", no miner. */
  predicate IsGenesis(b: BlockRecord) {
    b.index == 0 && b.data == GENESIS_DATA && b.previousHash == GENESIS_PREVIOUS_HASH && b.minerAddress == None
  }

  /** What validation checks of block i: its stored hash is its recomputation and it links to block i - 1. */
  predicate BlockChecks(c: seq<BlockRecord>, sha: Hash, i: int)
    requires 1 <= i < |c|
  {
    c[i].hash == c[i].CalculateHash(sha) && c[i].previousHash == c[i - 1].hash
  }

  /** What validation accepts: every block after genesis passes its checks. */
  predicate LinksHold(c: seq<BlockRecord>, sha: Hash) {
    forall i :: 1 <= i < |c| ==> BlockChecks(c, sha, i)
  }

  /**
   Block j sits where it should: its index is its position, its stored hash is
   its own recomputation, and it is either the genesis block (at position 0)
   or credited to a miner and linked to its predecessor's hash.
   */
  predicate WellPlaced(c: seq<BlockRecord>, sha: Hash, j: int)
    requires 0 <= j < |c|
  {
    && c[j].index == j
    && c[j].hash == c[j].CalculateHash(sha)
    && (j == 0 ==> IsGenesis(c[j]))
    && (j > 0 ==> c[j].previousHash == c[j - 1].hash && c[j].minerAddress.Some?)
  }

  /** The shape of every chain the constructor and AddBlock build. */
  predicate Linked(c: seq<BlockRecord>, sha: Hash) {
    |c| > 0 && forall j :: 0 <= j < |c| ==> WellPlaced(c, sha, j)
  }

  /** A block built on the tip with the tip's hash, the next index and a consistent hash extends a linked chain. */
  lemma LinkedAppend(c: seq<BlockRecord>, b: BlockRecord, sha: Hash)
    requires Linked(c, sha)
    requires b.index == |c| && b.previousHash == c[|c| - 1].hash
    requires b.hash == b.CalculateHash(sha) && b.minerAddress.Some?
    ensures Linked(c + [b], sha)
  {
    var c' := c + [b];
    forall j | 0 <= j < |c'|
      ensures WellPlaced(c', sha, j)
    {
      if j < |c| {
        assert WellPlaced(c, sha, j);
      }
    }
  }

  /** A chain built only by the constructor and AddBlock passes validation. */
  lemma LinkedChainIsValid(c: seq<BlockRecord>, sha: Hash)
    requires Linked(c, sha)
    ensures LinksHold(c, sha)
  {
    forall i | 1 <= i < |c|
      ensures BlockChecks(c, sha, i)
    {
      assert WellPlaced(c, sha, i);
    }
  }

  /** On a linked chain every block's index is its position, so the tip carries the highest index. */
  lemma TipHasHighestIndex(c: seq<BlockRecord>, sha: Hash)
    requires Linked(c, sha)
    ensures c[|c| - 1].index == |c| - 1
    ensures forall j :: 0 <= j < |c| ==> c[j].index == j <= c[|c| - 1].index
  {
    forall j | 0 <= j < |c|
      ensures c[j].index == j
    {
      assert WellPlaced(c, sha, j);
    }
  }

  /**
   Validation never looks at the genesis block beyond its stored hash:
   replacing it by any block with the same hash leaves the verdict unchanged.
   */
  lemma GenesisContentNotChecked(c: seq<BlockRecord>, sha: Hash, g: BlockRecord)
    requires |c| > 0 && g.hash == c[0].hash
    ensures LinksHold(c[0 := g], sha) <==> LinksHold(c, sha)
  {
    var c' := c[0 := g];
    forall i | 1 <= i < |c|
      ensures BlockChecks(c', sha, i) <==> BlockChecks(c, sha, i)
    {
      assert c'[i] == c[i];
      assert c'[i - 1].hash == c[i - 1].hash;
    }
  }

  /**
   Tampering with a block after genesis is detected: if the altered block no
   longer rehashes to the hash it stores, validation rejects the chain.
   */
  lemma TamperingDetected(c: seq<BlockRecord>, sha: Hash, i: int, altered: BlockRecord)
    requires 1 <= i < |c|
    requires altered.hash != altered.CalculateHash(sha)
    ensures !LinksHold(c[i := altered], sha)
  {
    assert !BlockChecks(c[i := altered], sha, i);
  }

  /**
   With a difficulty between -64 and -1 no nonce passes the mining test, so
   the mining loop never exits; the difficulty controller can reach such a
   difficulty (see `DifficultyCanGoNegative`).
   */
  lemma NegativeDifficultyUnmineable(sha: Hash, index: int, timestamp: real, data: string,
                                     previousHash: string, difficulty: int)
    requires -DIGEST_LENGTH < difficulty < 0
    ensures forall n :: !NonceMeets(sha, HashInput(index, timestamp, data, previousHash, n), difficulty)
  {
    forall n
      ensures !NonceMeets(sha, HashInput(index, timestamp, data, previousHash, n), difficulty)
    {
      NegativeDifficultyNeverMet(sha(HashInput(index, timestamp, data, previousHash, n)), difficulty);
    }
  }

  /**
   The nonce of b is the first non-negative one whose hash meets the
   difficulty d, and b's stored hash meets d.
   */
  predicate FirstNonce(b: BlockRecord, sha: Hash, d: int) {
    && 0 <= b.nonce
    && MeetsDifficulty(b.hash, d)
    && forall n :: 0 <= n < b.nonce ==> !NonceMeets(sha, HashInput(b.index, b.timestamp, b.data, b.previousHash, n), d)
  }

  /**
   The first half of `add_block`: a new block with the given index and
   predecessor hash and nonce 0, mined at the given difficulty.
   */
  method MineBlockOnto(index: int, timestamp: real, data: string, previousHash: string,
                       minerAddress: Address, difficulty: int, sha: Hash) returns (b: BlockRecord)
    requires exists n :: n >= 0 && NonceMeets(sha, HashInput(index, timestamp, data, previousHash, n), difficulty)
    ensures b.index == index && b.timestamp == timestamp && b.data == data
    ensures b.previousHash == previousHash && b.minerAddress == Some(minerAddress)
    ensures b.hash == b.CalculateHash(sha)
    ensures FirstNonce(b, sha, difficulty)
  {
    var newBlock := new Block(index, timestamp, data, previousHash, Some(minerAddress), 0, sha);
    ghost var n :| n >= 0 && NonceMeets(sha, HashInput(index, timestamp, data, previousHash, n), difficulty);
    assert newBlock.InputWith(n) == HashInput(index, timestamp, data, previousHash, n);
    newBlock.MineBlock(difficulty, sha);
    b := newBlock.Record();
    forall m | 0 <= m < b.nonce
      ensures !NonceMeets(sha, HashInput(b.index, b.timestamp, b.data, b.previousHash, m), difficulty)
    {
      assert newBlock.InputWith(m) == HashInput(b.index, b.timestamp, b.data, b.previousHash, m);
    }
  }

  class Blockchain {
    var chain: seq<BlockRecord>
    /** Mining times, in milliseconds, since the last difficulty correction. */
    var time: seq<int>
    var difficulty: int
    const difficultyCorrectionInterval: int
    /** Target mining time per block, in milliseconds. */
    const targetTime: int
    const initialReward: real
    var rewardAmount: real
    const halvingInterval: int
    var wallets: Wallets
    const sha: Hash

    /**
     The object invariant: a linked chain, positive intervals, one mining time
     per block since the last correction, and the reward the schedule sets for
     the tip's index.
     */
    ghost predicate Valid()
      reads this
    {
      && Linked(chain, sha)
      && Scheduled(|chain| - 1, |time|, rewardAmount, initialReward, difficultyCorrectionInterval, halvingInterval)
    }

    /** The reward of a valid chain never exceeds the initial one and stays positive when that is. */
    lemma RewardStaysPositive()
      requires Valid() && initialReward > 0.0
      ensures 0.0 < rewardAmount <= initialReward
    {
      RewardBounds(initialReward, |chain| - 1, halvingInterval);
    }

    /** Every chain the constructor and AddBlock build passes validation. */
    lemma ValidChainPassesValidation()
      requires Valid()
      ensures LinksHold(chain, sha)
    {
      LinkedChainIsValid(chain, sha);
    }

    constructor (difficulty: int, difficultyCorrectionInterval: int, targetTime: int,
                 initialReward: real, halvingInterval: int, wallets: Wallets,
                 genesisTimestamp: real, sha: Hash)
      requires difficultyCorrectionInterval > 0 && halvingInterval > 0
      ensures Valid()
      ensures |chain| == 1 && chain[0].timestamp == genesisTimestamp && chain[0].nonce == 0
      ensures time == [] && this.difficulty == difficulty && rewardAmount == initialReward
      ensures this.difficultyCorrectionInterval == difficultyCorrectionInterval && this.targetTime == targetTime
      ensures this.initialReward == initialReward && this.halvingInterval == halvingInterval
      ensures this.wallets == wallets && this.sha == sha
    {
      this.chain := [];
      this.time := [];
      this.difficulty := difficulty;
      this.difficultyCorrectionInterval := difficultyCorrectionInterval;
      this.targetTime := targetTime;
      this.initialReward := initialReward;
      this.rewardAmount := initialReward;
      this.halvingInterval := halvingInterval;
      this.wallets := wallets;
      this.sha := sha;
      new;
      CreateGenesisBlock(genesisTimestamp);
      assert Pow2(0) == 1;
    }

    /** Append the genesis block. */
    method CreateGenesisBlock(timestamp: real)
      modifies this`chain
      ensures |chain| == |old(chain)| + 1 && chain[..|old(chain)|] == old(chain)
      ensures var g := chain[|chain| - 1];
        IsGenesis(g) && g.timestamp == timestamp && g.nonce == 0 && g.hash == g.CalculateHash(sha)
    {
      var genesis := new Block(0, timestamp, GENESIS_DATA, GENESIS_PREVIOUS_HASH, None, 0, sha);
      chain := chain + [genesis.Record()];
    }

    /** The tip of the chain; on a linked chain it carries the highest index. */
    function GetLatestBlock(): (b: BlockRecord)
      reads this
      requires |chain| > 0
      ensures b == chain[|chain| - 1]
      ensures Linked(chain, sha) ==> b.index == |chain| - 1
    {
      assert Linked(chain, sha) ==> WellPlaced(chain, sha, |chain| - 1);
      chain[|chain| - 1]
    }

    /** Credit the current reward to the miner's wallet, creating it if absent. */
    method PayoutReward(minerAddress: Address)
      modifies this`wallets
      ensures wallets == Credit(old(wallets), minerAddress, rewardAmount)
    {
      if minerAddress !in wallets {
        wallets := wallets[minerAddress := 0.0];
      }
      wallets := wallets[minerAddress := wallets[minerAddress] + rewardAmount];
    }

    /** Validation: every block after genesis rehashes to its stored hash and links to its predecessor. */
    method IsValidChain() returns (ok: bool)
      ensures ok <==> LinksHold(chain, sha)
    {
      var i := 1;
      while i < |chain|
        invariant 1 <= i
        invariant |chain| > 0 ==> i <= |chain|
        invariant forall j :: 1 <= j < i && j < |chain| ==> BlockChecks(chain, sha, j)
      {
        var currentBlock := chain[i];
        var previousBlock := chain[i - 1];
        if currentBlock.hash != currentBlock.CalculateHash(sha) {
          assert !BlockChecks(chain, sha, i);
          return false;
        }
        if currentBlock.previousHash != previousBlock.hash {
          assert !BlockChecks(chain, sha, i);
          return false;
        }
        i := i + 1;
      }
      return true;
    }

    /** Retune the difficulty from the mean of the recorded mining times and clear them. */
    method CalculateNewDifficulty()
      requires |time| > 0
      modifies this`difficulty, this`time
      ensures difficulty == NewDifficulty(old(difficulty), old(time), targetTime)
      ensures time == []
    {
      difficulty := NewDifficulty(difficulty, time, targetTime);
      time := [];
    }

    /** Set the reward the halving schedule gives for the tip's index. */
    method CalculateNewReward()
      requires |chain| > 0 && chain[|chain| - 1].index >= 0 && halvingInterval > 0
      modifies this`rewardAmount
      ensures rewardAmount == RewardAt(initialReward, chain[|chain| - 1].index, halvingInterval)
    {
      rewardAmount := RewardAt(initialReward, GetLatestBlock().index, halvingInterval);
    }

    /**
     Build a block on the tip, mine it at the current difficulty, append it and
     its mining time, pay the miner the current reward, then run the reward and
     difficulty corrections when the new index is a multiple of their intervals.
     The timestamp and the elapsed milliseconds are supplied by the caller.
     */
    method AddBlock(newData: string, minerAddress: Address, timestamp: real, elapsed: nat)
      requires Valid()
      requires exists n :: n >= 0 && NonceMeets(sha, HashInput(|chain|, timestamp, newData, GetLatestBlock().hash, n), difficulty)
      modifies this
      ensures Valid()
      ensures |chain| == |old(chain)| + 1 && chain[..|old(chain)|] == old(chain)
      ensures var b := chain[|chain| - 1];
        && b.index == |old(chain)| && b.timestamp == timestamp && b.data == newData
        && b.previousHash == old(chain[|chain| - 1].hash) && b.minerAddress == Some(minerAddress)
        && FirstNonce(b, sha, old(difficulty))
      ensures wallets == Credit(old(wallets), minerAddress, old(rewardAmount))
      ensures var k := |old(chain)|;
        && time == (if k % difficultyCorrectionInterval == 0 then [] else old(time) + [elapsed])
        && (k % difficultyCorrectionInterval == 0 ==> |old(time)| + 1 == difficultyCorrectionInterval)
        && rewardAmount == (if k % halvingInterval == 0 then RewardAt(initialReward, k, halvingInterval) else old(rewardAmount))
        && difficulty == (if k % difficultyCorrectionInterval == 0
                          then NewDifficulty(old(difficulty), old(time) + [elapsed], targetTime)
                          else old(difficulty))
    {
      var previousBlock := GetLatestBlock();
      var newIndex := previousBlock.index + 1;
      ghost var oldTime, oldReward := time, rewardAmount;
      var mined := MineBlockOnto(newIndex, timestamp, newData, previousBlock.hash, minerAddress, difficulty, sha);
      LinkedAppend(chain, mined, sha);
      chain := chain + [mined];
      PayoutReward(minerAddress);
      time := time + [elapsed];
      if GetLatestBlock().index % halvingInterval == 0 {
        CalculateNewReward();
      }
      if GetLatestBlock().index % difficultyCorrectionInterval == 0 {
        CalculateNewDifficulty();
      }
      ScheduledStep(newIndex - 1, |oldTime|, oldReward, initialReward, difficultyCorrectionInterval, halvingInterval);
    }
  }
}
