/** Block rewards and the identities of the coins that pay them, over a whole chain. */
module Rewards {
  import opened Bytes

  const MOJO_PER_CHIA: nat := 1000000000000
  const BLOCKS_PER_YEAR: nat := 1681920
  const UINT32: int := 0x1_0000_0000
  const UINT64: int := 0x1_0000_0000_0000_0000

  /** A uint32 block height. */
  type Height = h: int | 0 <= h < UINT32

  // ------------------------------------------------------------ amounts

  /** The whole reward of a block, in chia. */
  function BlockReward(height: Height): real {
    if height == 0 then 21000000.0
    else if height < 3 * BLOCKS_PER_YEAR then 2.0
    else if height < 6 * BLOCKS_PER_YEAR then 1.0
    else if height < 9 * BLOCKS_PER_YEAR then 0.5
    else if height < 12 * BLOCKS_PER_YEAR then 0.25
    else 0.125
  }

  /** The reward of a block in units of an eighth of a chia. */
  function Eighths(height: Height): int {
    if height == 0 then 8 * 21000000
    else if height < 3 * BLOCKS_PER_YEAR then 16
    else if height < 6 * BLOCKS_PER_YEAR then 8
    else if height < 9 * BLOCKS_PER_YEAR then 4
    else if height < 12 * BLOCKS_PER_YEAR then 2
    else 1
  }

  /** The float products are exact: seven eighths of the era's reward, in mojo. */
  function CalculatePoolReward(height: Height): (r: int)
    ensures 0 < r < UINT64
    ensures 8 * r == 7 * (MOJO_PER_CHIA / 8) * Eighths(height)
  {
    ((7.0 / 8.0) * BlockReward(height) * MOJO_PER_CHIA as real).Floor
  }

  function CalculateBaseFarmerReward(height: Height): (r: int)
    ensures 0 < r < UINT64
    ensures 8 * r == MOJO_PER_CHIA / 8 * Eighths(height)
  {
    ((1.0 / 8.0) * BlockReward(height) * MOJO_PER_CHIA as real).Floor
  }

  /** The shares are exact: the pool gets seven times what the farmer gets, together the whole reward, and
      only at height 0 would the two not fit into one uint64. */
  lemma Shares(height: Height)
    ensures CalculatePoolReward(height) == 7 * CalculateBaseFarmerReward(height)
    ensures (CalculatePoolReward(height) + CalculateBaseFarmerReward(height)) as real ==
            BlockReward(height) * MOJO_PER_CHIA as real
    ensures CalculatePoolReward(height) + CalculateBaseFarmerReward(height) < UINT64 <==> height != 0
  {
  }

  /** Everything paid up to and including a height. */
  function Paid(height: Height): int {
    CalculatePoolReward(height) + CalculateBaseFarmerReward(height) + if height == 0 then 0 else Paid(height - 1)
  }

  /** How many of the heights 1..height lie in the era that starts at `from` and lasts three years. */
  function InEra(height: int, from: int): int {
    if height < from then 0 else if height < from + 3 * BLOCKS_PER_YEAR then height - from + 1 else 3 * BLOCKS_PER_YEAR
  }

  /** The closed form, in the same unit: linear within each era. */
  function Supply(height: int): int {
    var year := BLOCKS_PER_YEAR;
    var first := if height < 3 * year then height else 3 * year - 1;
    var last := if height < 12 * year then 0 else height - 12 * year + 1;
    8 * 21000000 + 16 * first + 8 * InEra(height, 3 * year) + 4 * InEra(height, 6 * year) + 2 * InEra(height, 9 * year)
      + last
  }

  lemma BlockInEighths(height: Height)
    ensures CalculatePoolReward(height) + CalculateBaseFarmerReward(height) == MOJO_PER_CHIA / 8 * Eighths(height)
  {
    Shares(height);
  }

  lemma SupplyStep(height: Height)
    requires height > 0
    ensures Supply(height) == Supply(height - 1) + Eighths(height)
  {
  }

  /** The running total of all rewards is the closed form at every height. */
  lemma {:induction false} PaidIsSupply(height: Height)
    ensures Paid(height) == MOJO_PER_CHIA / 8 * Supply(height)
    decreases height
  {
    hide Supply, Eighths, CalculatePoolReward, CalculateBaseFarmerReward;
    BlockInEighths(height);
    if height > 0 {
      PaidIsSupply(height - 1);
      SupplyStep(height);
    } else {
      SupplyStart();
    }
  }

  lemma SupplyStart()
    ensures Supply(0) == Eighths(0)
  {
  }

  // ------------------------------------------------------------ parent ids

  function Power256(n: nat): (p: nat)
    ensures p > 0
  {
    if n == 0 then 1 else 256 * Power256(n - 1)
  }

  /** `int.to_bytes(length, "big")`. */
  function ToBytes(value: nat, length: nat): (b: Blob)
    ensures |b| == length
  {
    if length == 0 then [] else ToBytes(value / 256, length - 1) + [(value % 256) as byte]
  }

  function FromBytes(b: Blob): nat {
    if b == [] then 0 else 256 * FromBytes(b[..|b| - 1]) + b[|b| - 1] as int
  }

  lemma {:induction false} BytesRoundTrip(value: nat, length: nat)
    requires value < Power256(length)
    ensures FromBytes(ToBytes(value, length)) == value
  {
    if length > 0 {
      BytesRoundTrip(value / 256, length - 1);
      var b := ToBytes(value, length);
      assert b[..|b| - 1] == ToBytes(value / 256, length - 1);
    }
  }

  function PoolParentId(height: Height, genesisChallenge: Bytes32): Bytes32 {
    genesisChallenge[..16] + ToBytes(height, 16)
  }

  function FarmerParentId(height: Height, genesisChallenge: Bytes32): Bytes32 {
    genesisChallenge[16..] + ToBytes(height, 16)
  }

  /** A parent id is half of the challenge, the first for the pool and the second for the farmer, and then the height
      in big-endian bytes. */
  lemma ParentParts(height: Height, challenge: Bytes32)
    ensures var pool, farmer := PoolParentId(height, challenge), FarmerParentId(height, challenge);
            && pool[..16] + farmer[..16] == challenge
            && FromBytes(pool[16..]) == height == FromBytes(farmer[16..])
  {
    var pool, farmer, tail := PoolParentId(height, challenge), FarmerParentId(height, challenge), ToBytes(height, 16);
    assert pool[16..] == tail == farmer[16..];
    assert pool[..16] == challenge[..16] && farmer[..16] == challenge[16..];
    SixteenBytes();
    BytesRoundTrip(height, 16);
  }

  lemma HeightBytesInjective(a: Height, b: Height)
    requires ToBytes(a, 16) == ToBytes(b, 16)
    ensures a == b
  {
    SixteenBytes();
    BytesRoundTrip(a, 16);
    BytesRoundTrip(b, 16);
  }

  lemma SixteenBytes()
    ensures Power256(16) >= UINT32
  {
    assert Power256(4) == UINT32;
    PowerGrows(4, 16);
  }

  lemma {:induction false} PowerGrows(a: nat, b: nat)
    requires a <= b
    ensures Power256(a) <= Power256(b)
    decreases b
  {
    if a < b {
      PowerGrows(a, b - 1);
    }
  }

  lemma HalvesEqual(x: Blob, y: Blob, a: Blob, b: Blob)
    requires |x| == |y|
    ensures x + a == y + b <==> x == y && a == b
  {
    if x + a == y + b {
      assert x == (x + a)[..|x|] && y == (y + b)[..|y|];
      assert a == (x + a)[|x|..] && b == (y + b)[|y|..];
    }
  }

  /** Two reward parents are the same exactly if they are of the same height, and of the same kind or of a
      challenge with equal halves. */
  lemma ParentsApart(a: Height, b: Height, challenge: Bytes32)
    ensures PoolParentId(a, challenge) == PoolParentId(b, challenge) <==> a == b
    ensures FarmerParentId(a, challenge) == FarmerParentId(b, challenge) <==> a == b
    ensures PoolParentId(a, challenge) == FarmerParentId(b, challenge) <==> a == b && challenge[..16] == challenge[16..]
  {
    var left, right := challenge[..16], challenge[16..];
    HalvesEqual(left, left, ToBytes(a, 16), ToBytes(b, 16));
    HalvesEqual(right, right, ToBytes(a, 16), ToBytes(b, 16));
    HalvesEqual(left, right, ToBytes(a, 16), ToBytes(b, 16));
    if ToBytes(a, 16) == ToBytes(b, 16) {
      HeightBytesInjective(a, b);
    }
  }

  // ------------------------------------------------------------ the coins of a chain

  datatype Coin = Coin(parentCoinInfo: Bytes32, puzzleHash: Bytes32, amount: int)

  /** What a block pays: two puzzle hashes and two amounts (a farmer's amount may include fees). */
  datatype Payout = Payout(poolPuzzleHash: Bytes32, poolAmount: int, farmerPuzzleHash: Bytes32, farmerAmount: int)

  function CreatePoolCoin(height: Height, puzzleHash: Bytes32, reward: int, challenge: Bytes32): Coin {
    Coin(PoolParentId(height, challenge), puzzleHash, reward)
  }

  function CreateFarmerCoin(height: Height, puzzleHash: Bytes32, reward: int, challenge: Bytes32): Coin {
    Coin(FarmerParentId(height, challenge), puzzleHash, reward)
  }

  function RewardCoins(payouts: seq<Payout>, challenge: Bytes32): set<Coin>
    requires |payouts| <= UINT32
  {
    if payouts == [] then {}
    else
      var h := |payouts| - 1;
      var p := payouts[h];
      RewardCoins(payouts[..h], challenge) +
      {CreatePoolCoin(h, p.poolPuzzleHash, p.poolAmount, challenge),
       CreateFarmerCoin(h, p.farmerPuzzleHash, p.farmerAmount, challenge)}
  }

  /** The reward coins are, for each height, the pool's and the farmer's, with their parents, puzzles and amounts. */
  lemma {:induction false} CoinsOfChain(payouts: seq<Payout>, challenge: Bytes32, c: Coin)
    requires |payouts| <= UINT32
    ensures c in RewardCoins(payouts, challenge) <==>
            exists h :: 0 <= h < |payouts| && PaidAt(payouts[h], h, challenge, c)
    decreases |payouts|
  {
    hide PoolParentId, FarmerParentId, PaidAt;
    if payouts != [] {
      var n := |payouts| - 1;
      CoinsOfChain(payouts[..n], challenge, c);
      LastCoins(payouts, challenge, c);
      hide RewardCoins;
      if h :| 0 <= h < n && PaidAt(payouts[..n][h], h, challenge, c) {
        assert PaidAt(payouts[h], h, challenge, c);
      }
      if h :| 0 <= h < |payouts| && PaidAt(payouts[h], h, challenge, c) {
        assert h < n ==> payouts[..n][h] == payouts[h];
      }
    }
  }

  lemma LastCoins(payouts: seq<Payout>, challenge: Bytes32, c: Coin)
    requires 0 < |payouts| <= UINT32
    ensures var n := |payouts| - 1;
            c in RewardCoins(payouts, challenge) <==>
            c in RewardCoins(payouts[..n], challenge) || PaidAt(payouts[n], n, challenge, c)
  {
    hide PoolParentId, FarmerParentId;
  }

  ghost predicate PaidAt(p: Payout, h: Height, challenge: Bytes32, c: Coin) {
    || (c.parentCoinInfo == PoolParentId(h, challenge) && c.puzzleHash == p.poolPuzzleHash && c.amount == p.poolAmount)
    || (c.parentCoinInfo == FarmerParentId(h, challenge) && c.puzzleHash == p.farmerPuzzleHash &&
        c.amount == p.farmerAmount)
  }

  /** Coins of a chain have the parents of its heights. */
  lemma {:induction false} CoinParent(payouts: seq<Payout>, challenge: Bytes32, c: Coin) returns (h: Height)
    requires |payouts| <= UINT32 && c in RewardCoins(payouts, challenge)
    ensures h < |payouts| && (c.parentCoinInfo == PoolParentId(h, challenge)
                              || c.parentCoinInfo == FarmerParentId(h, challenge))
    decreases |payouts|
  {
    var n := |payouts| - 1;
    if c in RewardCoins(payouts[..n], challenge) {
      h := CoinParent(payouts[..n], challenge, c);
    } else {
      h := n;
    }
  }

  /** The two coins of a block are one coin. */
  predicate Coincide(p: Payout, challenge: Bytes32) {
    challenge[..16] == challenge[16..] && p.poolPuzzleHash == p.farmerPuzzleHash && p.poolAmount == p.farmerAmount
  }

  /** The coins of a block are new, and two unless they coincide. */
  lemma NextCoins(payouts: seq<Payout>, challenge: Bytes32)
    requires 0 < |payouts| <= UINT32
    ensures var h := |payouts| - 1;
            |RewardCoins(payouts, challenge)| ==
            |RewardCoins(payouts[..h], challenge)| + if Coincide(payouts[h], challenge) then 1 else 2
  {
    hide PoolParentId, FarmerParentId;
    var h := |payouts| - 1;
    var p := payouts[h];
    var before := RewardCoins(payouts[..h], challenge);
    var pool := CreatePoolCoin(h, p.poolPuzzleHash, p.poolAmount, challenge);
    var farmer := CreateFarmerCoin(h, p.farmerPuzzleHash, p.farmerAmount, challenge);
    ParentsApart(h, h, challenge);
    forall c | c in before
      ensures c != pool && c != farmer
    {
      var g := CoinParent(payouts[..h], challenge, c);
      ParentsApart(g, h, challenge);
      ParentsApart(h, g, challenge);
    }
    assert RewardCoins(payouts, challenge) == before + {pool, farmer};
    assert pool == farmer <==> Coincide(p, challenge);
    if pool == farmer {
      assert before + {pool, farmer} == before + {pool};
    }
  }

  /** A chain of n blocks never has more than 2n reward coins, and has 2n distinct ones exactly if the halves
      of the challenge differ or no block pays its two coins alike. */
  lemma {:induction false} CoinsDistinct(payouts: seq<Payout>, challenge: Bytes32)
    requires |payouts| <= UINT32
    ensures |RewardCoins(payouts, challenge)| <= 2 * |payouts|
    ensures |RewardCoins(payouts, challenge)| == 2 * |payouts| <==>
            || challenge[..16] != challenge[16..]
            || forall i :: 0 <= i < |payouts| ==>
                 payouts[i].poolPuzzleHash != payouts[i].farmerPuzzleHash
                   || payouts[i].poolAmount != payouts[i].farmerAmount
    decreases |payouts|
  {
    hide RewardCoins;
    if payouts == [] {
      NoCoins(challenge);
    } else {
      var init := payouts[..|payouts| - 1];
      CoinsDistinct(init, challenge);
      NextCoins(payouts, challenge);
      assert forall i :: 0 <= i < |init| ==> init[i] == payouts[i];
    }
  }

  lemma NoCoins(challenge: Bytes32)
    ensures RewardCoins([], challenge) == {}
  {
  }

  /** With equal halves, a block that pays the same amount to the same puzzle twice makes one coin. */
  lemma CoinsCoincide(payout: Payout, challenge: Bytes32)
    requires Coincide(payout, challenge)
    ensures |RewardCoins([payout], challenge)| == 1
  {
    NextCoins([payout], challenge);
    assert [payout][..0] == [];
    NoCoins(challenge);
  }

  /** The coins of the block rewards themselves never coincide, since the pool gets more than the farmer. */
  lemma ScheduledCoinsDistinct(payouts: seq<Payout>, challenge: Bytes32)
    requires |payouts| <= UINT32
    requires forall i :: 0 <= i < |payouts| ==>
               payouts[i].poolAmount == CalculatePoolReward(i)
                 && payouts[i].farmerAmount == CalculateBaseFarmerReward(i)
    ensures |RewardCoins(payouts, challenge)| == 2 * |payouts|
  {
    CoinsDistinct(payouts, challenge);
    forall i | 0 <= i < |payouts|
      ensures payouts[i].poolAmount != payouts[i].farmerAmount
    {
      Shares(i);
    }
  }
}
