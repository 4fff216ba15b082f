/** `convert_v1_to_v2` as a whole: the checks before it, the block walk, the hints and the coins. */
module Upgrade {
  import opened Bytes
  import opened ChainValidator
  import opened ChainUpgrade
  import opened UpgradeValidates
  import opened CoinRewind
  import opened HintPaging

  /** A row of the v1 table coin_record, whose hashes are hexadecimal text. */
  datatype V1Coin = V1Coin(
    confirmedIndex: int,
    spentIndex: int,
    coinbase: bool,
    puzzleHash: Hex32,
    coinParent: Hex32,
    amount: Blob,
    timestamp: int)

  /** An outer None is a missing version table, an inner None an empty one. */
  datatype V1Db = V1Db(
    version: Option<Option<int>>,
    chain: V1Chain,
    hints: HintTable,
    coins: map<Hex32, V1Coin>)

  datatype Upgraded = Upgraded(db: V2Db, hints: set<Hint>, coins: CoinTable)

  function DecodeCoin(c: V1Coin): CoinRecord {
    CoinRecord(c.confirmedIndex, c.spentIndex, c.coinbase, Coin(Unhex(c.coinParent), Unhex(c.puzzleHash), c.amount),
               c.timestamp)
  }

  function HexOf(b: Bytes32): Hex32 {
    Hex(b)
  }

  /** The v1 coin table with its hexadecimal columns decoded. */
  ghost function DecodeCoins(coins: map<Hex32, V1Coin>): CoinTable {
    map b: Bytes32 | b in (set n | n in coins :: Unhex(n)) && HexOf(b) in coins :: DecodeCoin(coins[HexOf(b)])
  }

  /** The columns of a row of the new table, told against those of the old row. */
  ghost predicate ConvertedFrom(c: V1Coin, r: CoinRecord, peak: int) {
    && Hex(r.coin.parent) == c.coinParent
    && Hex(r.coin.puzzleHash) == c.puzzleHash
    && r.coin.amount == c.amount
    && r.coinbase == c.coinbase
    && r.timestamp == c.timestamp
    && r.confirmedIndex == c.confirmedIndex
    && r.spentIndex == if c.spentIndex <= peak then c.spentIndex else 0
  }

  /** The new table holds exactly the coins confirmed by the peak, row by row. */
  ghost predicate Converted(coins: map<Hex32, V1Coin>, peak: int, out: CoinTable) {
    && (forall b :: b in out <==> HexOf(b) in coins && coins[HexOf(b)].confirmedIndex <= peak)
    && forall b :: b in out ==> ConvertedFrom(coins[HexOf(b)], out[b], peak)
  }

  /** The v1 table is the hexadecimal form of this table. */
  ghost predicate Encodes(coins: map<Hex32, V1Coin>, t: CoinTable) {
    && (forall n :: n in coins ==> exists b :: b in t && n == HexOf(b))
    && forall b :: b in t ==>
         HexOf(b) in coins &&
         coins[HexOf(b)] == V1Coin(t[b].confirmedIndex, t[b].spentIndex, t[b].coinbase, HexOf(t[b].coin.puzzleHash),
                                   HexOf(t[b].coin.parent), t[b].coin.amount, t[b].timestamp)
  }

  /** `order` lists the coin names once each, as ORDER BY unhex(coin_name) does. */
  ghost predicate Lists(order: seq<Hex32>, coins: map<Hex32, V1Coin>) {
    && (forall n :: n in order <==> n in coins)
    && forall i, j :: 0 <= i < j < |order| ==> order[i] != order[j]
  }

  lemma DecodedCoin(coins: map<Hex32, V1Coin>, n: Hex32)
    ensures Unhex(n) in DecodeCoins(coins) <==> n in coins
    ensures n in coins ==> DecodeCoins(coins)[Unhex(n)] == DecodeCoin(coins[n])
  {
    HexUnhex(n);
  }

  /** The row staged for one coin. */
  function StagedRow(n: Hex32, c: V1Coin, peak: int): (Bytes32, CoinRecord) {
    (Unhex(n), RewindRecord(DecodeCoin(c), peak))
  }

  /** The temporary table holds one row for each of `names`, the coins of `done` confirmed by the peak. */
  ghost predicate Staged(temp: seq<(Bytes32, CoinRecord)>, names: seq<Hex32>, coins: map<Hex32, V1Coin>,
                         done: seq<Hex32>, peak: int) {
    && |temp| == |names|
    && (forall i :: 0 <= i < |names| ==> names[i] in coins && temp[i] == StagedRow(names[i], coins[names[i]], peak))
    && (forall i, j :: 0 <= i < j < |names| ==> names[i] != names[j])
    && (forall n :: n in names <==> n in done && n in coins && coins[n].confirmedIndex <= peak)
  }

  lemma StagedNamesDiffer(temp: seq<(Bytes32, CoinRecord)>, names: seq<Hex32>, coins: map<Hex32, V1Coin>,
                          done: seq<Hex32>, peak: int)
    requires Staged(temp, names, coins, done, peak)
    ensures forall i, j :: 0 <= i < j < |temp| ==> temp[i].0 != temp[j].0
  {
    hide Unhex, DecodeCoin, RewindRecord;
    forall i, j | 0 <= i < j < |temp|
      ensures temp[i].0 != temp[j].0
    {
      if temp[i].0 == temp[j].0 {
        UnhexInjective(names[i], names[j]);
      }
    }
  }

  /** The first n rows of the temporary table have been inserted. */
  ghost predicate Inserted(out: CoinTable, temp: seq<(Bytes32, CoinRecord)>, n: nat)
    requires n <= |temp|
  {
    && (forall b :: b in out ==> exists i :: 0 <= i < n && temp[i].0 == b)
    && (forall i :: 0 <= i < n ==> temp[i].0 in out && out[temp[i].0] == temp[i].1)
  }

  lemma InsertedIsRewind(temp: seq<(Bytes32, CoinRecord)>, names: seq<Hex32>, coins: map<Hex32, V1Coin>,
                         order: seq<Hex32>, peak: int, out: CoinTable)
    requires Lists(order, coins) && Staged(temp, names, coins, order, peak) && Inserted(out, temp, |temp|)
    ensures out == Rewind(DecodeCoins(coins), peak)
  {
    hide Unhex, DecodeCoin, DecodeCoins, Rewind, RewindRecord;
    var rewound := Rewind(DecodeCoins(coins), peak);
    forall b | b in out
      ensures b in rewound && rewound[b] == out[b]
    {
      var i :| 0 <= i < |temp| && temp[i].0 == b;
      assert names[i] in names;
      RewoundCoin(coins, names[i], peak);
    }
    forall b | b in rewound
      ensures b in out
    {
      UnhexHex(b);
      RewoundCoin(coins, HexOf(b), peak);
      var i :| 0 <= i < |names| && names[i] == HexOf(b);
    }
  }

  lemma RewoundCoin(coins: map<Hex32, V1Coin>, n: Hex32, peak: int)
    ensures Unhex(n) in Rewind(DecodeCoins(coins), peak) <==> n in coins && coins[n].confirmedIndex <= peak
    ensures n in coins && coins[n].confirmedIndex <= peak ==>
              Rewind(DecodeCoins(coins), peak)[Unhex(n)] == StagedRow(n, coins[n], peak).1
  {
    DecodedCoin(coins, n);
    hide Unhex, DecodeCoins;
  }

  /** The temporary table and its batched copy: the v2 coin table is the rewound v1 table, and no
      INSERT meets a coin name that is already there. */
  method ConvertCoins(coins: map<Hex32, V1Coin>, order: seq<Hex32>, peakHeight: int) returns (out: CoinTable)
    requires Lists(order, coins)
    ensures out == Rewind(DecodeCoins(coins), peakHeight)
    ensures Converted(coins, peakHeight, out)
  {
    hide Unhex, DecodeCoin, RewindRecord, Rewind, DecodeCoins, Staged, Lists, Converted;
    var temp := StageCoins(coins, order, peakHeight);
    ghost var names :| Staged(temp, names, coins, order, peakHeight);
    StagedNamesDiffer(temp, names, coins, order, peakHeight);
    out := map[];
    var fetched: nat := 0;
    while true
      invariant fetched <= |temp| && Inserted(out, temp, fetched)
      decreases |temp| - fetched
    {
      var rows := temp[fetched..if fetched + BATCH_SIZE <= |temp| then fetched + BATCH_SIZE else |temp|];
      if |rows| == 0 {
        break;
      }
      for k := 0 to |rows|
        invariant Inserted(out, temp, fetched + k)
      {
        var row := rows[k];
        assert row == temp[fetched + k];
        assert row.0 !in out;
        out := out[row.0 := row.1];
      }
      fetched := fetched + |rows|;
    }
    InsertedIsRewind(temp, names, coins, order, peakHeight, out);
    RewindConverts(coins, peakHeight);
  }

  lemma RewindConverts(coins: map<Hex32, V1Coin>, peak: int)
    ensures Converted(coins, peak, Rewind(DecodeCoins(coins), peak))
  {
    hide Unhex, Hex, DecodeCoins, Rewind;
    var out := Rewind(DecodeCoins(coins), peak);
    forall b: Bytes32
      ensures b in out <==> HexOf(b) in coins && coins[HexOf(b)].confirmedIndex <= peak
      ensures b in out ==> ConvertedFrom(coins[HexOf(b)], out[b], peak)
    {
      UnhexHex(b);
      RewoundCoin(coins, HexOf(b), peak);
      if b in out {
        HexUnhex(coins[HexOf(b)].coinParent);
        HexUnhex(coins[HexOf(b)].puzzleHash);
      }
    }
  }

  /** The conversion has one outcome. */
  lemma ConvertedUnique(coins: map<Hex32, V1Coin>, peak: int, s: CoinTable, t: CoinTable)
    requires Converted(coins, peak, s) && Converted(coins, peak, t)
    ensures s == t
  {
    hide Hex;
    forall b | b in s
      ensures b in t && s[b] == t[b]
    {
      UnhexHex(s[b].coin.parent);
      UnhexHex(t[b].coin.parent);
      UnhexHex(s[b].coin.puzzleHash);
      UnhexHex(t[b].coin.puzzleHash);
    }
  }

  /** If the v1 coin table is the hexadecimal form of the outcome of a run of blocks, the converted table is
      the outcome of the run up to the peak. */
  lemma ConvertedCoinsReplay(coins: map<Hex32, V1Coin>, blocks: seq<Block>, peakHeight: nat, out: CoinTable)
    requires Ascending(blocks) && MarkerFree(blocks) && Replay(blocks).Some?
    requires Encodes(coins, Replay(blocks).value) && Converted(coins, peakHeight, out)
    ensures Replay(UpTo(blocks, peakHeight)) == Some(out)
  {
    hide Replay, Encodes, Converted, Ascending, MarkerFree;
    RewindEqualsReplay(blocks, peakHeight);
    EncodedConverts(coins, Replay(blocks).value, peakHeight);
    ConvertedUnique(coins, peakHeight, out, Rewind(Replay(blocks).value, peakHeight));
  }

  lemma EncodedConverts(coins: map<Hex32, V1Coin>, t: CoinTable, peak: int)
    requires Encodes(coins, t)
    ensures Converted(coins, peak, Rewind(t, peak))
  {
    hide Hex;
    forall b: Bytes32
      ensures b in Rewind(t, peak) <==> HexOf(b) in coins && coins[HexOf(b)].confirmedIndex <= peak
    {
      if HexOf(b) in coins {
        var b' :| b' in t && HexOf(b) == HexOf(b');
        UnhexHex(b);
        UnhexHex(b');
      }
    }
  }

  /** CREATE TABLE temp.coin_record AS SELECT ... */
  method StageCoins(coins: map<Hex32, V1Coin>, order: seq<Hex32>, peakHeight: int)
    returns (temp: seq<(Bytes32, CoinRecord)>)
    requires Lists(order, coins)
    ensures exists names :: Staged(temp, names, coins, order, peakHeight)
  {
    hide Unhex, DecodeCoin, RewindRecord;
    temp := [];
    ghost var names: seq<Hex32> := [];
    for k := 0 to |order|
      invariant Staged(temp, names, coins, order[..k], peakHeight)
    {
      var n := order[k];
      assert n in coins && n !in order[..k];
      assert order[..k + 1] == order[..k] + [n];
      if coins[n].confirmedIndex <= peakHeight {
        temp := temp + [StagedRow(n, coins[n], peakHeight)];
        names := names + [n];
      }
    }
    assert order[..|order|] == order;
  }

  // ------------------------------------------------------------ the whole conversion

  /** The conversion from the opened v1 database on. On success the new tables hold the ancestry of a
      v1 peak, the distinct hints with an id of at least 1, and the coin table rewound to the peak
      height; and the validator accepts them exactly when that ancestry is convertible. */
  method ConvertV1ToV2(v1: V1Db, codec: Codec, order: seq<Hex32>, parameterLimit: nat)
    returns (r: Result<Upgraded, UpgradeFault>)
    requires Keyed(v1.chain) && Lists(order, v1.coins) && 1 <= parameterLimit
    ensures r.Ok? ==>
      exists peak, chain ::
        && peak in v1.chain.records && peak.isPeak && peak.height != 0
        && Ancestry(v1.chain.records, peak.headerHash, peak.height) == Ok(chain)
        && r.value.db == UpgradedDb(v1.chain, codec, peak.headerHash, chain)
        && r.value.hints == (set id | id in v1.hints && 1 <= id :: v1.hints[id])
        && r.value.coins == Rewind(DecodeCoins(v1.coins), peak.height)
        && Converted(v1.coins, peak.height, r.value.coins)
        && KeyedByHash(r.value.db.fullBlocks)
        && forall rows, validateBlocks, genesis | IsCursor(rows, r.value.db.fullBlocks)
          && Decodable(codec, validateBlocks) ::
             Validation(r.value.db, rows, validateBlocks, codec, genesis).Ok? <==>
             Convertible(v1.chain, codec, chain, validateBlocks, genesis)
    ensures r.Err? ==>
      || (v1.version.Some? && v1.version.value.Some? && v1.version.value.value != 1
          && r.error == AlreadyConverted(v1.version.value.value))
      || ((forall s :: s in v1.chain.records ==> !s.isPeak) && r.error == NoPeakRecord)
      || exists peak :: peak in v1.chain.records && peak.isPeak && FailsAt(v1.chain, peak, r.error)
  {
    if v1.version.Some? && v1.version.value.Some? && v1.version.value.value != 1 {
      return Err(AlreadyConverted(v1.version.value.value));
    }
    if !exists s :: s in v1.chain.records && s.isPeak {
      return Err(NoPeakRecord);
    }
    var peak :| peak in v1.chain.records && peak.isPeak;
    var blocks, walk, _ := ConvertFullBlocks(v1.chain, codec, peak.headerHash, peak.height, parameterLimit);
    if walk.Err? {
      assert FailsAt(v1.chain, peak, walk.error);
      return Err(walk.error);
    }
    var hints := ConvertHints(v1.hints, parameterLimit);
    var coins := ConvertCoins(v1.coins, order, peak.height);
    var db := V2Db(Some(Some(2)), Some(Some(Unhex(peak.headerHash))), blocks);
    r := Ok(Upgraded(db, hints, coins));
    ghost var chain := Ancestry(v1.chain.records, peak.headerHash, peak.height).value;
    UpgradeAcceptance(v1.chain, codec, peak.headerHash, peak.height, chain);
  }

  /** The walk from this peak meets a missing link, or the peak is at height 0. */
  ghost predicate FailsAt(v1: V1Chain, peak: RecordRow, fault: UpgradeFault) {
    match Ancestry(v1.records, peak.headerHash, peak.height)
    case Err(e) => fault == e
    case Ok(_) => peak.height == 0 && fault == ZeroDivision
  }

  lemma UpgradeAcceptance(v1: V1Chain, codec: Codec, hash: Hex32, height: int, chain: seq<RecordRow>)
    requires Keyed(v1)
    requires Ancestry(v1.records, hash, height) == Ok(chain)
    ensures KeyedByHash(UpgradedDb(v1, codec, hash, chain).fullBlocks)
    ensures forall rows, validateBlocks, genesis | IsCursor(rows, UpgradedDb(v1, codec, hash, chain).fullBlocks)
            && Decodable(codec, validateBlocks) ::
              Validation(UpgradedDb(v1, codec, hash, chain), rows, validateBlocks, codec, genesis).Ok? <==>
              Convertible(v1, codec, chain, validateBlocks, genesis)
  {
    AncestryIsWalk(v1.records, hash, height);
    UpgradedKeyed(v1, codec, hash, height, chain);
    forall rows, validateBlocks, genesis | IsCursor(rows, UpgradedDb(v1, codec, hash, chain).fullBlocks)
      && Decodable(codec, validateBlocks)
      ensures Validation(UpgradedDb(v1, codec, hash, chain), rows, validateBlocks, codec, genesis).Ok? <==>
              Convertible(v1, codec, chain, validateBlocks, genesis)
    {
      UpgradeThenValidate(v1, codec, hash, height, chain, rows, validateBlocks, genesis);
    }
  }
}
