/** Step 4 of `convert_v1_to_v2`: rewinding the coin table to the peak, compared with
    applying only the blocks up to that height. */
module CoinRewind {
  import opened Bytes

  datatype Coin = Coin(parent: Bytes32, puzzleHash: Bytes32, amount: Blob)

  /** A row of the table coin_record. A spent_index of 0 or less means unspent; -1 is a marker of the
      v2 coin store for an unspent coin that repeats its parent's puzzle hash and amount. */
  datatype CoinRecord = CoinRecord(confirmedIndex: int, spentIndex: int, coinbase: bool, coin: Coin, timestamp: int)

  type CoinTable = map<Bytes32, CoinRecord>

  // ------------------------------------------------------------ applying blocks

  datatype Addition = Addition(name: Bytes32, coin: Coin, sameAsParent: bool)

  datatype Block = Block(
    height: nat,
    timestamp: int,
    rewards: seq<(Bytes32, Coin)>,
    additions: seq<Addition>,
    removals: seq<Bytes32>)

  datatype Entry = Entry(name: Bytes32, record: CoinRecord)

  /** The rows a block inserts: transaction additions, then reward coins. */
  function Entries(b: Block): seq<Entry> {
    seq(|b.additions|, i requires 0 <= i < |b.additions| =>
      Entry(b.additions[i].name,
            CoinRecord(b.height,
                       if b.additions[i].sameAsParent then -1 else 0,
                       false, b.additions[i].coin, b.timestamp)))
    + seq(|b.rewards|, i requires 0 <= i < |b.rewards| =>
        Entry(b.rewards[i].0, CoinRecord(b.height, 0, true, b.rewards[i].1, b.timestamp)))
  }

  /** INSERT of several rows; None is the exception for a coin name that is already there. */
  function InsertAll(t: CoinTable, entries: seq<Entry>): Option<CoinTable>
    decreases |entries|
  {
    if entries == [] then Some(t)
    else if entries[0].name in t then None
    else InsertAll(t[entries[0].name := entries[0].record], entries[1..])
  }

  predicate Distinct(names: seq<Bytes32>) {
    forall i, j :: 0 <= i < j < |names| ==> names[i] != names[j]
  }

  /** The update of removed coins; None is an exception: at height 0 there is nothing to spend, and
      every removed coin must be a different unspent coin of the table. */
  function SetSpent(t: CoinTable, names: seq<Bytes32>, height: nat): Option<CoinTable> {
    if names == [] then Some(t)
    else if height == 0 then None
    else if Distinct(names) && forall n :: n in names ==> n in t && t[n].spentIndex <= 0 then
      Some(map n | n in t :: if n in names then t[n].(spentIndex := height) else t[n])
    else None
  }

  /** Apply one block: every coin is created once, and spent at most once and not before it exists. */
  function ApplyBlock(t: CoinTable, b: Block): Option<CoinTable> {
    match InsertAll(t, Entries(b))
    case None => None
    case Some(t') => SetSpent(t', b.removals, b.height)
  }

  /** The table after a run of blocks, or None if one of them was refused. */
  function Replay(blocks: seq<Block>): Option<CoinTable> {
    if blocks == [] then Some(map[])
    else
      match Replay(blocks[..|blocks| - 1])
      case None => None
      case Some(t) => ApplyBlock(t, blocks[|blocks| - 1])
  }

  /** `CoinStore.new_block`, which also counts the reward coins. */
  function NewBlock(t: CoinTable, b: Block): Option<CoinTable> {
    if (if b.height == 0 then |b.rewards| != 0 else |b.rewards| < 2) then None else ApplyBlock(t, b)
  }

  function StoreRun(blocks: seq<Block>): Option<CoinTable> {
    if blocks == [] then Some(map[])
    else
      match StoreRun(blocks[..|blocks| - 1])
      case None => None
      case Some(t) => NewBlock(t, blocks[|blocks| - 1])
  }

  /** What the v2 coin store accepts is such a run. */
  lemma {:induction false} StoreRunReplays(blocks: seq<Block>)
    requires StoreRun(blocks).Some?
    ensures Replay(blocks) == StoreRun(blocks)
    decreases |blocks|
  {
    if blocks != [] {
      StoreRunReplays(blocks[..|blocks| - 1]);
    }
  }

  ghost predicate Ascending(blocks: seq<Block>) {
    forall i, j :: 0 <= i < j < |blocks| ==> blocks[i].height < blocks[j].height
  }

  function UpTo(blocks: seq<Block>, peak: nat): seq<Block> {
    if blocks == [] then []
    else
      var last := blocks[|blocks| - 1];
      UpTo(blocks[..|blocks| - 1], peak) + if last.height <= peak then [last] else []
  }

  // ------------------------------------------------------------ the rewind

  /** CASE WHEN spent_index <= peak THEN spent_index ELSE 0 END. */
  function RewindRecord(r: CoinRecord, peak: int): CoinRecord {
    r.(spentIndex := if r.spentIndex <= peak then r.spentIndex else 0)
  }

  /** SELECT ... FROM coin_record WHERE confirmed_index <= peak. */
  function Rewind(t: CoinTable, peak: int): CoinTable {
    map n | n in t && t[n].confirmedIndex <= peak :: RewindRecord(t[n], peak)
  }

  // ------------------------------------------------------------ facts about one block

  lemma {:induction false} InsertAllContents(t: CoinTable, entries: seq<Entry>)
    requires InsertAll(t, entries).Some?
    ensures var t' := InsertAll(t, entries).value;
            && t'.Keys == t.Keys + (set i | 0 <= i < |entries| :: entries[i].name)
            && (forall n :: n in t ==> t'[n] == t[n])
            && (forall i :: 0 <= i < |entries| ==> entries[i].name !in t && t'[entries[i].name] == entries[i].record)
    decreases |entries|
  {
    if entries != [] {
      var t1 := t[entries[0].name := entries[0].record];
      InsertAllContents(t1, entries[1..]);
      assert forall i :: 1 <= i < |entries| ==> entries[i] == entries[1..][i - 1];
      assert (set i | 0 <= i < |entries| :: entries[i].name) ==
             {entries[0].name} + (set i | 0 <= i < |entries[1..]| :: entries[1..][i].name);
    }
  }

  /** How one accepted block changes one coin. */
  lemma BlockOnCoin(t: CoinTable, b: Block, n: Bytes32)
    requires ApplyBlock(t, b).Some?
    ensures var t' := ApplyBlock(t, b).value;
            && (n in t ==> n in t')
            && (n in b.removals ==> n in t' && b.height > 0 && (n in t ==> t[n].spentIndex <= 0))
            && (n in t' && n !in t ==>
                  && t'[n].confirmedIndex == b.height
                  && (n !in b.removals ==> t'[n].spentIndex == if Marks(b, n) then -1 else 0))
            && (n in t ==> t'[n] == (if n in b.removals then t[n].(spentIndex := b.height) else t[n]))
            && (n in t' && n in b.removals ==> t'[n].spentIndex == b.height)
            && (Marks(b, n) ==> n in t' && n !in t)
  {
    var entries := Entries(b);
    InsertAllContents(t, entries);
    var mid := InsertAll(t, entries).value;
    forall i | 0 <= i < |entries|
      ensures entries[i].record.confirmedIndex == b.height
      ensures entries[i].record.spentIndex == if Marks(b, entries[i].name) then -1 else 0
    {
      EntryMark(t, b, i);
    }
    if Marks(b, n) {
      var i :| 0 <= i < |b.additions| && b.additions[i].name == n && b.additions[i].sameAsParent;
      assert entries[i].name == n;
    }
  }

  /** Block b adds coin n as one that repeats its parent. */
  ghost predicate Marks(b: Block, n: Bytes32) {
    exists i :: 0 <= i < |b.additions| && b.additions[i].name == n && b.additions[i].sameAsParent
  }

  lemma {:induction false} InsertAllDistinct(t: CoinTable, entries: seq<Entry>, i: nat, j: nat)
    requires InsertAll(t, entries).Some? && i < j < |entries|
    ensures entries[i].name != entries[j].name
    decreases |entries|
  {
    var t1 := t[entries[0].name := entries[0].record];
    if i == 0 {
      InsertAllContents(t1, entries[1..]);
      assert entries[1..][j - 1] == entries[j];
    } else {
      InsertAllDistinct(t1, entries[1..], i - 1, j - 1);
    }
  }

  lemma EntryMark(t: CoinTable, b: Block, i: nat)
    requires InsertAll(t, Entries(b)).Some? && i < |Entries(b)|
    ensures Entries(b)[i].record.confirmedIndex == b.height
    ensures Entries(b)[i].record.spentIndex == if Marks(b, Entries(b)[i].name) then -1 else 0
  {
    var entries := Entries(b);
    if Marks(b, entries[i].name) {
      var j :| 0 <= j < |b.additions| && b.additions[j].name == entries[i].name && b.additions[j].sameAsParent;
      assert entries[j].name == entries[i].name;
      if j < i { InsertAllDistinct(t, entries, j, i); }
      if i < j { InsertAllDistinct(t, entries, i, j); }
    } else if i < |b.additions| {
      assert b.additions[i].name == entries[i].name;
    }
  }

  // ------------------------------------------------------------ facts about a run

  /** The indices in a table never exceed the height of the last block applied. */
  lemma {:induction false} ReplayBounded(blocks: seq<Block>, n: Bytes32)
    requires Ascending(blocks) && Replay(blocks).Some? && n in Replay(blocks).value
    ensures blocks != []
    ensures var r := Replay(blocks).value[n];
            var top := blocks[|blocks| - 1].height;
            r.confirmedIndex <= top && -1 <= r.spentIndex <= top
    decreases |blocks|
  {
    var init, last := blocks[..|blocks| - 1], blocks[|blocks| - 1];
    var t := Replay(init).value;
    BlockOnCoin(t, last, n);
    if n in t {
      ReplayBounded(init, n);
    }
  }

  lemma {:induction false} UpToAll(blocks: seq<Block>, peak: nat)
    requires forall i :: 0 <= i < |blocks| ==> blocks[i].height <= peak
    ensures UpTo(blocks, peak) == blocks
    decreases |blocks|
  {
    if blocks != [] {
      UpToAll(blocks[..|blocks| - 1], peak);
    }
  }

  /** A coin's spent index is above the peak exactly when a block above the peak removed it. */
  lemma {:induction false} SpentAbove(blocks: seq<Block>, peak: nat, n: Bytes32)
    requires Ascending(blocks) && Replay(blocks).Some?
    ensures (n in Replay(blocks).value && Replay(blocks).value[n].spentIndex > peak) <==> RemovedAbove(blocks, peak, n)
    decreases |blocks|
  {
    if blocks != [] {
      var init, last := blocks[..|blocks| - 1], blocks[|blocks| - 1];
      SpentAbove(init, peak, n);
      BlockOnCoin(Replay(init).value, last, n);
      if last.height > peak && n in last.removals {
        assert blocks[|blocks| - 1] == last;
      }
      if RemovedAbove(init, peak, n) {
        var i :| 0 <= i < |init| && init[i].height > peak && n in init[i].removals;
        assert blocks[i] == init[i];
      }
    }
  }

  ghost predicate RemovedAbove(blocks: seq<Block>, peak: nat, n: Bytes32) {
    exists i :: 0 <= i < |blocks| && blocks[i].height > peak && n in blocks[i].removals
  }

  ghost predicate MarkedUpTo(blocks: seq<Block>, peak: nat, n: Bytes32) {
    exists i :: 0 <= i < |blocks| && blocks[i].height <= peak && Marks(blocks[i], n)
  }

  ghost predicate Removed(blocks: seq<Block>, n: Bytes32) {
    exists i :: 0 <= i < |blocks| && n in blocks[i].removals
  }

  /** A coin carries the marker -1 exactly when a block marked it and no block removed it. */
  lemma {:induction false} MarkOrigin(blocks: seq<Block>, peak: nat, n: Bytes32)
    requires Ascending(blocks) && Replay(blocks).Some?
    requires forall i :: 0 <= i < |blocks| ==> blocks[i].height <= peak
    ensures (n in Replay(blocks).value && Replay(blocks).value[n].spentIndex == -1) <==>
            MarkedUpTo(blocks, peak, n) && !Removed(blocks, n)
    ensures MarkedUpTo(blocks, peak, n) || Removed(blocks, n) ==> n in Replay(blocks).value
    ensures n in Replay(blocks).value && Removed(blocks, n) ==> Replay(blocks).value[n].spentIndex > 0
    decreases |blocks|
  {
    hide MarkedUpTo, Removed, Marks, ApplyBlock;
    if blocks != [] {
      var init, last := blocks[..|blocks| - 1], blocks[|blocks| - 1];
      MarkOrigin(init, peak, n);
      BlockOnCoin(Replay(init).value, last, n);
      assert blocks == init + [last];
      LastBlock(init, last, peak, n);
    } else {
      NothingYet(peak, n);
    }
  }

  lemma NothingYet(peak: nat, n: Bytes32)
    ensures !MarkedUpTo([], peak, n) && !Removed([], n)
  {
  }

  lemma LastBlock(init: seq<Block>, last: Block, peak: nat, n: Bytes32)
    requires last.height <= peak
    ensures MarkedUpTo(init + [last], peak, n) <==> MarkedUpTo(init, peak, n) || Marks(last, n)
    ensures Removed(init + [last], n) <==> Removed(init, n) || n in last.removals
  {
    hide Marks;
    var blocks := init + [last];
    assert blocks[|init|] == last;
    if MarkedUpTo(init, peak, n) {
      var i :| 0 <= i < |init| && init[i].height <= peak && Marks(init[i], n);
      assert blocks[i] == init[i];
    }
    if Removed(init, n) {
      var i :| 0 <= i < |init| && n in init[i].removals;
      assert blocks[i] == init[i];
    }
  }

  // ------------------------------------------------------------ rewind against replay

  /** What rewinding leaves of a coin that the replay has as r: the same row, but an unspent marker -1
      is lost if the coin was spent above the peak. */
  function AfterRewind(r: CoinRecord, spentAbove: bool): CoinRecord {
    if r.spentIndex == -1 && spentAbove then r.(spentIndex := 0) else r
  }

  lemma {:induction false} RewindIsReplay(blocks: seq<Block>, peak: nat)
    requires Ascending(blocks) && Replay(blocks).Some?
    ensures Replay(UpTo(blocks, peak)).Some?
    ensures var t := Replay(blocks).value;
            var u := Replay(UpTo(blocks, peak)).value;
            && Rewind(t, peak).Keys == u.Keys
            && forall n :: n in u ==> n in t && Rewind(t, peak)[n] == AfterRewind(u[n], t[n].spentIndex > peak)
    decreases |blocks|
  {
    if blocks != [] {
      var init, last := blocks[..|blocks| - 1], blocks[|blocks| - 1];
      var t := Replay(blocks).value;
      if last.height <= peak {
        UpToAll(blocks, peak);
        forall n | n in t
          ensures n in Rewind(t, peak) && Rewind(t, peak)[n] == t[n] && t[n].spentIndex <= peak
        {
          ReplayBounded(blocks, n);
        }
      } else {
        RewindIsReplay(init, peak);
        assert UpTo(blocks, peak) == UpTo(init, peak);
        var t0 := Replay(init).value;
        var u := Replay(UpTo(blocks, peak)).value;
        forall n
          ensures n in Rewind(t, peak) <==> n in u
          ensures n in u ==> n in t && Rewind(t, peak)[n] == AfterRewind(u[n], t[n].spentIndex > peak)
        {
          BlockOnCoin(t0, last, n);
          assert n in u <==> n in Rewind(t0, peak);
          if n in t0 {
            ReplayBounded(init, n);
          }
        }
      }
    }
  }

  /** No block marks a coin: the tables that a v1 database can hold, since the coin store that writes the
      marker refuses every schema but v2. */
  ghost predicate MarkerFree(blocks: seq<Block>) {
    forall i, n :: 0 <= i < |blocks| ==> !Marks(blocks[i], n)
  }

  /** Rewinding the table of a run to the peak gives exactly the table of the run up to the peak. */
  lemma RewindEqualsReplay(blocks: seq<Block>, peak: nat)
    requires Ascending(blocks) && MarkerFree(blocks) && Replay(blocks).Some?
    ensures Replay(UpTo(blocks, peak)) == Some(Rewind(Replay(blocks).value, peak))
  {
    RewindWithMarkers(blocks, peak);
  }

  /** For runs with markers, as the v2 coin store writes them, the same holds exactly when no coin marked
      at or below the peak was spent above it. */
  lemma RewindWithMarkers(blocks: seq<Block>, peak: nat)
    requires Ascending(blocks) && Replay(blocks).Some?
    ensures Replay(UpTo(blocks, peak)).Some?
    ensures Rewind(Replay(blocks).value, peak) == Replay(UpTo(blocks, peak)).value <==>
            forall n :: !(MarkedUpTo(blocks, peak, n) && RemovedAbove(blocks, peak, n))
  {
    RewindIsReplay(blocks, peak);
    var t := Replay(blocks).value;
    var kept := UpTo(blocks, peak);
    var u := Replay(kept).value;
    UpToPrefix(blocks, peak);
    forall n
      ensures (n in u && u[n].spentIndex == -1 && t[n].spentIndex > peak) <==>
              (MarkedUpTo(blocks, peak, n) && RemovedAbove(blocks, peak, n))
    {
      SpentAbove(blocks, peak, n);
      MarkOrigin(kept, peak, n);
      MarkedInPrefix(blocks, peak, n);
      if Removed(kept, n) {
        assert blocks[..|kept|] == kept;
        RemovedTwice(blocks, |kept|, peak, n);
      }
    }
    if Rewind(t, peak) == u {
      forall n
        ensures !(MarkedUpTo(blocks, peak, n) && RemovedAbove(blocks, peak, n))
      {
        assert n in u ==> Rewind(t, peak)[n] == u[n];
      }
    }
  }

  lemma {:induction false} UpToPrefix(blocks: seq<Block>, peak: nat)
    requires Ascending(blocks)
    ensures UpTo(blocks, peak) <= blocks
    ensures forall i :: 0 <= i < |blocks| ==> (blocks[i].height <= peak <==> i < |UpTo(blocks, peak)|)
    decreases |blocks|
  {
    if blocks != [] {
      var n := |blocks| - 1;
      if blocks[n].height <= peak {
        UpToAll(blocks, peak);
      } else {
        UpToPrefix(blocks[..n], peak);
        LastDropped(blocks, peak);
        assert forall i :: 0 <= i < n ==> blocks[..n][i] == blocks[i];
      }
    }
  }

  lemma LastDropped(blocks: seq<Block>, peak: nat)
    requires blocks != [] && blocks[|blocks| - 1].height > peak
    ensures UpTo(blocks, peak) == UpTo(blocks[..|blocks| - 1], peak)
  {
  }

  lemma MarkedInPrefix(blocks: seq<Block>, peak: nat, n: Bytes32)
    requires Ascending(blocks)
    ensures MarkedUpTo(UpTo(blocks, peak), peak, n) <==> MarkedUpTo(blocks, peak, n)
  {
    var kept := UpTo(blocks, peak);
    UpToPrefix(blocks, peak);
    if MarkedUpTo(blocks, peak, n) {
      var i :| 0 <= i < |blocks| && blocks[i].height <= peak && Marks(blocks[i], n);
      assert kept[i] == blocks[i];
    }
    if MarkedUpTo(kept, peak, n) {
      var i :| 0 <= i < |kept| && kept[i].height <= peak && Marks(kept[i], n);
      assert kept[i] == blocks[i];
    }
  }

  /** An accepted run never removes a coin twice. */
  lemma {:induction false} RemovedTwice(blocks: seq<Block>, k: nat, peak: nat, n: Bytes32)
    requires Ascending(blocks) && Replay(blocks).Some? && k <= |blocks|
    requires Removed(blocks[..k], n)
    requires forall i :: 0 <= i < |blocks| ==> (blocks[i].height <= peak <==> i < k)
    ensures !RemovedAbove(blocks, peak, n)
    decreases |blocks|
  {
    if RemovedAbove(blocks, peak, n) {
      var init, last := blocks[..|blocks| - 1], blocks[|blocks| - 1];
      assert k < |blocks|;
      assert init[..k] == blocks[..k];
      RemovedTwice(init, k, peak, n);
      RemovedIsSpent(init, n, k);
      BlockOnCoin(Replay(init).value, last, n);
    }
  }

  lemma {:induction false} RemovedIsSpent(blocks: seq<Block>, n: Bytes32, k: nat)
    requires Replay(blocks).Some? && k <= |blocks| && Removed(blocks[..k], n)
    ensures n in Replay(blocks).value && Replay(blocks).value[n].spentIndex > 0
    decreases |blocks|
  {
    var init, last := blocks[..|blocks| - 1], blocks[|blocks| - 1];
    BlockOnCoin(Replay(init).value, last, n);
    if n !in last.removals {
      var i :| 0 <= i < k && n in blocks[..k][i].removals;
      var k' := if k == |blocks| then k - 1 else k;
      assert init[..k'][i] == blocks[i];
      RemovedIsSpent(init, n, k');
    }
  }
}
