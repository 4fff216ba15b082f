/** Step 1 of `convert_v1_to_v2`: the batched walk from the peak that fills the v2 table full_blocks. */
module ChainUpgrade {
  import opened Bytes
  import opened ChainValidator

  // ------------------------------------------------------------ the v1 tables

  /** A row of the v1 table block_records. */
  datatype RecordRow = RecordRow(
    rowid: int,
    headerHash: Hex32,
    prevHash: Hex32,
    height: int,
    subEpochSummary: Option<Blob>,
    isPeak: bool,
    block: Blob)

  /** A row of the v1 table full_blocks. */
  datatype FullBlockRow = FullBlockRow(headerHash: Hex32, isFullyCompactified: int, block: Blob)

  datatype V1Chain = V1Chain(records: set<RecordRow>, fullBlocks: set<FullBlockRow>)

  /** Row ids are unique, and both v1 tables have header_hash as their primary key. */
  ghost predicate Keyed(v1: V1Chain) {
    && (forall r, s :: r in v1.records && s in v1.records && (r.headerHash == s.headerHash || r.rowid == s.rowid) ==>
        r == s)
    && (forall f, g :: f in v1.fullBlocks && g in v1.fullBlocks && f.headerHash == g.headerHash ==> f == g)
  }

  const BATCH_SIZE: nat := 300_000

  datatype UpgradeFault =
    | AlreadyConverted(version: int)
    | NoPeakRecord
    | RowidNotFound(hash: Hex32, height: int)
    | ZeroDivision

  // ------------------------------------------------------------ what the walk visits

  /** The record the query for (hash, height) returns. */
  ghost function Select(records: set<RecordRow>, hash: Hex32, height: int): (r: Option<RecordRow>)
    ensures r.Some? ==> r.value in records && r.value.headerHash == hash && r.value.height == height
    ensures r.None? ==> !exists s :: s in records && s.headerHash == hash && s.height == height
  {
    if exists s :: s in records && s.headerHash == hash && s.height == height then
      var s :| s in records && s.headerHash == hash && s.height == height;
      Some(s)
    else None
  }

  /** The records from (hash, height) down to height 0, or the first link that is missing. */
  ghost function Ancestry(records: set<RecordRow>, hash: Hex32, height: int): Result<seq<RecordRow>, UpgradeFault>
    decreases height + 1
  {
    if height < 0 then Ok([])
    else
      match Select(records, hash, height)
      case None => Err(RowidNotFound(hash, height))
      case Some(r) => Onto([r], Ancestry(records, r.prevHash, height - 1))
  }

  ghost function Onto(walked: seq<RecordRow>,
                      rest: Result<seq<RecordRow>, UpgradeFault>): Result<seq<RecordRow>, UpgradeFault> {
    match rest
    case Err(e) => Err(e)
    case Ok(more) => Ok(walked + more)
  }

  /** Consecutive ancestors: each record is the parent of the one before, one height lower. */
  ghost predicate IsWalk(records: set<RecordRow>, hash: Hex32, height: int, walked: seq<RecordRow>) {
    && (forall i :: 0 <= i < |walked| ==> walked[i] in records && walked[i].height == height - i)
    && (|walked| > 0 ==> walked[0].headerHash == hash)
    && (forall i :: 0 < i < |walked| ==> walked[i].headerHash == walked[i - 1].prevHash)
  }

  /** The row the INSERT ... SELECT writes for a record and its full block. */
  function ConvertRow(codec: Codec, r: RecordRow, f: FullBlockRow): BlockRow {
    BlockRow(Unhex(r.headerHash), Unhex(r.prevHash), r.height, r.subEpochSummary, f.isFullyCompactified, true,
             codec.compress(f.block), r.block)
  }

  /** The rows written for the given records: those with a partner in the v1 table full_blocks. */
  ghost function ConvertRows(v1: V1Chain, codec: Codec, picked: set<RecordRow>): set<BlockRow> {
    set r, f | r in picked && f in v1.fullBlocks && r.headerHash == f.headerHash :: ConvertRow(codec, r, f)
  }

  ghost function Elements(walked: seq<RecordRow>): set<RecordRow> {
    set r | r in walked
  }

  // ------------------------------------------------------------ what the walk writes

  /** The columns of a row of the new table, told against the record and the full block it comes from. */
  ghost predicate WrittenFor(codec: Codec, r: RecordRow, f: FullBlockRow, row: BlockRow) {
    && Hex(row.headerHash) == r.headerHash
    && Hex(row.prevHash) == r.prevHash
    && row.height == r.height
    && row.subEpochSummary == r.subEpochSummary
    && row.isFullyCompactified == f.isFullyCompactified
    && row.inMainChain
    && row.block == codec.compress(f.block)
    && row.blockRecord == r.block
  }

  ghost predicate IsPartner(v1: V1Chain, r: RecordRow, f: FullBlockRow) {
    f in v1.fullBlocks && f.headerHash == r.headerHash
  }

  /** The new table has a row for every walked record with a full block, and no others. */
  ghost predicate Written(v1: V1Chain, codec: Codec, walked: seq<RecordRow>, out: set<BlockRow>) {
    && (forall r, f :: r in walked && IsPartner(v1, r, f) ==> exists row :: row in out && WrittenFor(codec, r, f, row))
    && forall row :: row in out ==> exists r, f :: r in walked && IsPartner(v1, r, f) && WrittenFor(codec, r, f, row)
  }

  lemma ConvertRowsWritten(v1: V1Chain, codec: Codec, walked: seq<RecordRow>)
    ensures Written(v1, codec, walked, ConvertRows(v1, codec, Elements(walked)))
  {
    hide Hex, Unhex;
    forall r, f | r in walked && IsPartner(v1, r, f)
      ensures ConvertRow(codec, r, f) in ConvertRows(v1, codec, Elements(walked))
      ensures WrittenFor(codec, r, f, ConvertRow(codec, r, f))
    {
      HexUnhex(r.headerHash);
      HexUnhex(r.prevHash);
    }
    forall row | row in ConvertRows(v1, codec, Elements(walked))
      ensures exists r, f :: r in walked && IsPartner(v1, r, f) && WrittenFor(codec, r, f, row)
    {
      var r, f :| r in Elements(walked) && f in v1.fullBlocks && r.headerHash == f.headerHash &&
                  row == ConvertRow(codec, r, f);
      assert r in walked && IsPartner(v1, r, f);
    }
  }

  /** A complete ancestry is a walk of height + 1 records. */
  lemma {:induction false} AncestryIsWalk(records: set<RecordRow>, hash: Hex32, height: int)
    requires Ancestry(records, hash, height).Ok?
    ensures IsWalk(records, hash, height, Ancestry(records, hash, height).value)
    ensures |Ancestry(records, hash, height).value| == if height < 0 then 0 else height + 1
    decreases height + 1
  {
    if height >= 0 {
      var r := Select(records, hash, height).value;
      AncestryIsWalk(records, r.prevHash, height - 1);
      var rest := Ancestry(records, r.prevHash, height - 1).value;
      var chain := [r] + rest;
      assert Ancestry(records, hash, height).value == chain;
      assert forall i :: 0 < i < |chain| ==> chain[i] == rest[i - 1];
    }
  }

  /** A walk from the peak down to height 0. */
  ghost predicate Complete(v1: V1Chain, peakHash: Hex32, peakHeight: int, chain: seq<RecordRow>) {
    IsWalk(v1.records, peakHash, peakHeight, chain) && |chain| == if peakHeight < 0 then 0 else peakHeight + 1
  }

  /** The walk `seen` ends at a link for which there is no record, and `kept` is what of it was inserted: the
      full batches. */
  ghost predicate BreaksAt(v1: V1Chain, peakHash: Hex32, peakHeight: int, limit: nat, missing: UpgradeFault,
                           seen: seq<RecordRow>, kept: seq<RecordRow>)
    requires 1 <= limit
  {
    && missing.RowidNotFound?
    && Visits(v1, peakHash, peakHeight, seen, missing.hash, missing.height)
    && 0 <= missing.height
    && (forall s :: s in v1.records ==> !(s.headerHash == missing.hash && s.height == missing.height))
    && kept <= seen && |kept| % limit == 0 && |seen| < |kept| + limit
  }

  // ------------------------------------------------------------ the walk

  /** The inner loop's query for one record. */
  method SelectRecord(v1: V1Chain, hash: Hex32, height: int) returns (row: Option<RecordRow>)
    requires Keyed(v1)
    ensures row == Select(v1.records, hash, height)
  {
    if exists s :: s in v1.records && s.headerHash == hash && s.height == height {
      var s :| s in v1.records && s.headerHash == hash && s.height == height;
      row := Some(s);
    } else {
      row := None;
    }
  }

  /** INSERT INTO out_db.full_blocks SELECT ... WHERE br.rowid IN (rowids). */
  method InsertBlocks(v1: V1Chain, codec: Codec, rowids: seq<int>, out: set<BlockRow>) returns (out': set<BlockRow>)
    ensures out' == out + ConvertRows(v1, codec, set r | r in v1.records && r.rowid in rowids)
  {
    out' := out + set r, f | r in v1.records && f in v1.fullBlocks && r.rowid in rowids && r.headerHash == f.headerHash
                        :: ConvertRow(codec, r, f);
  }

  /** The two nested loops. `out` is what was inserted into full_blocks, also when the walk raises, and
      `uncommitted` the largest number of records that ever waited for a commit. */
  method ConvertFullBlocks(v1: V1Chain, codec: Codec, peakHash: Hex32, peakHeight: int, parameterLimit: nat)
    returns (out: set<BlockRow>, r: Result<(), UpgradeFault>, uncommitted: nat)
    requires Keyed(v1) && 1 <= parameterLimit
    ensures uncommitted < BATCH_SIZE + parameterLimit
    ensures var ancestry := Ancestry(v1.records, peakHash, peakHeight);
            if ancestry.Ok? then
              && out == ConvertRows(v1, codec, Elements(ancestry.value)) && Written(v1, codec, ancestry.value, out)
              && Complete(v1, peakHash, peakHeight, ancestry.value)
              && r == (if peakHeight == 0 then Err(ZeroDivision) else Ok(()))
            else
              && r == Err(ancestry.error)
              && exists seen, walked ::
                   && BreaksAt(v1, peakHash, peakHeight, parameterLimit, ancestry.error, seen, walked)
                   && out == ConvertRows(v1, codec, Elements(walked)) && Written(v1, codec, walked, out)
  {
    hide ConvertRows, Elements, Visits, Onto, Ancestry, BreaksAt, Select, Keyed, Written, IsWalk;
    var rowids: seq<int> := [];
    var smallBatchSize := BATCH_SIZE <= parameterLimit;
    var smallChain := peakHeight <= parameterLimit;
    var currentHeaderHash := peakHash;
    var currentHeight := peakHeight;
    var insertionsVsBatch: nat := 0;
    uncommitted := 0;
    out := {};
    ghost var walked: seq<RecordRow> := [];
    ghost var start := Ancestry(v1.records, peakHash, peakHeight);
    VisitStart(v1, codec, peakHash, peakHeight);
    while currentHeight >= 0
      invariant Visits(v1, peakHash, peakHeight, walked, currentHeaderHash, currentHeight)
      invariant start == Onto(walked, Ancestry(v1.records, currentHeaderHash, currentHeight))
      invariant out == ConvertRows(v1, codec, Elements(walked))
      invariant rowids == []
      invariant insertionsVsBatch < BATCH_SIZE && uncommitted < BATCH_SIZE + parameterLimit
      invariant |walked| == peakHeight - currentHeight
      invariant currentHeight >= 0 ==> |walked| % parameterLimit == 0
      invariant peakHeight == 0 ==> currentHeight == 0
      decreases currentHeight + 1
    {
      ghost var batch: seq<RecordRow> := [];
      assert walked + batch == walked;
      while |rowids| < parameterLimit
        invariant |rowids| == |batch| <= parameterLimit
        invariant |walked| + |batch| == peakHeight - currentHeight
        invariant forall i :: 0 <= i < |batch| ==> rowids[i] == batch[i].rowid
        invariant Visits(v1, peakHash, peakHeight, walked + batch, currentHeaderHash, currentHeight)
        invariant start == Onto(walked + batch, Ancestry(v1.records, currentHeaderHash, currentHeight))
        invariant -1 <= currentHeight && (currentHeight < 0 ==> batch != [])
        decreases currentHeight + 1
      {
        if currentHeight < 0 { break; }
        var row := SelectRecord(v1, currentHeaderHash, currentHeight);
        if row.None? {
          r := Err(RowidNotFound(currentHeaderHash, currentHeight));
          VisitMissing(v1, peakHash, peakHeight, parameterLimit, walked, batch, currentHeaderHash, currentHeight);
          ConvertRowsWritten(v1, codec, walked);
          return;
        }
        rowids := rowids + [row.value.rowid];
        VisitNext(v1, peakHash, peakHeight, walked + batch, currentHeaderHash, currentHeight, row.value);
        assert (walked + batch) + [row.value] == walked + (batch + [row.value]);
        batch := batch + [row.value];
        currentHeaderHash := row.value.prevHash;
        currentHeight := currentHeight - 1;
      }
      out := InsertBlocks(v1, codec, rowids, out);
      PickedByRowid(v1, peakHash, peakHeight, walked, batch, currentHeaderHash, currentHeight, rowids);
      ConvertUnion(v1, codec, walked, batch);
      BatchFull(|walked|, |batch|, parameterLimit);
      walked := walked + batch;
      insertionsVsBatch := insertionsVsBatch + |rowids|;
      uncommitted := if insertionsVsBatch > uncommitted then insertionsVsBatch else uncommitted;
      rowids := [];
      if insertionsVsBatch >= BATCH_SIZE || smallBatchSize || smallChain {
        // the progress line divides by peakHeight
        if peakHeight == 0 {
          VisitEnd(v1, walked, currentHeaderHash, currentHeight);
          ConvertRowsWritten(v1, codec, walked);
          AncestryIsWalk(v1.records, peakHash, peakHeight);
          r := Err(ZeroDivision);
          return;
        }
        insertionsVsBatch := 0;
      }
    }
    VisitEnd(v1, walked, currentHeaderHash, currentHeight);
    ConvertRowsWritten(v1, codec, walked);
    AncestryIsWalk(v1.records, peakHash, peakHeight);
    r := Ok(());
  }

  // ------------------------------------------------------------ proof of the walk

  /** Where the walk stands: the ancestors visited and the link it looks for next. */
  ghost predicate Visits(v1: V1Chain, peakHash: Hex32, peakHeight: int, walked: seq<RecordRow>, hash: Hex32,
                         height: int) {
    && IsWalk(v1.records, peakHash, peakHeight, walked)
    && height == peakHeight - |walked|
    && hash == if |walked| == 0 then peakHash else walked[|walked| - 1].prevHash
  }

  lemma VisitStart(v1: V1Chain, codec: Codec, peakHash: Hex32, peakHeight: int)
    ensures Visits(v1, peakHash, peakHeight, [], peakHash, peakHeight)
    ensures var start := Ancestry(v1.records, peakHash, peakHeight); Onto([], start) == start
    ensures ConvertRows(v1, codec, Elements([])) == {}
  {
    var start := Ancestry(v1.records, peakHash, peakHeight);
    assert start.Ok? ==> [] + start.value == start.value;
  }

  lemma VisitMissing(v1: V1Chain, peakHash: Hex32, peakHeight: int, limit: nat, walked: seq<RecordRow>,
                     batch: seq<RecordRow>, hash: Hex32, height: int)
    requires 1 <= limit && |walked| % limit == 0 && |batch| < limit && 0 <= height
    requires Visits(v1, peakHash, peakHeight, walked + batch, hash, height)
    requires Select(v1.records, hash, height).None?
    ensures BreaksAt(v1, peakHash, peakHeight, limit, RowidNotFound(hash, height), walked + batch, walked)
    ensures Onto(walked + batch, Ancestry(v1.records, hash, height)) == Err(RowidNotFound(hash, height))
  {
    assert forall i :: 0 <= i < |walked| ==> (walked + batch)[i] == walked[i];
  }

  lemma VisitNext(v1: V1Chain, peakHash: Hex32, peakHeight: int, walked: seq<RecordRow>, hash: Hex32, height: int,
                  row: RecordRow)
    requires Visits(v1, peakHash, peakHeight, walked, hash, height) && 0 <= height
    requires Select(v1.records, hash, height) == Some(row)
    ensures Visits(v1, peakHash, peakHeight, walked + [row], row.prevHash, height - 1)
    ensures Onto(walked, Ancestry(v1.records, hash, height)) ==
            Onto(walked + [row], Ancestry(v1.records, row.prevHash, height - 1))
  {
    var rest := Ancestry(v1.records, row.prevHash, height - 1);
    if rest.Ok? {
      assert walked + ([row] + rest.value) == walked + [row] + rest.value;
    }
  }

  lemma VisitEnd(v1: V1Chain, walked: seq<RecordRow>, hash: Hex32, height: int)
    requires height < 0
    ensures Onto(walked, Ancestry(v1.records, hash, height)) == Ok(walked)
  {
    assert walked + [] == walked;
  }

  lemma BatchFull(done: nat, batch: nat, limit: nat)
    requires 1 <= limit && done % limit == 0
    ensures batch == limit ==> (done + batch) % limit == 0
  {
    if batch == limit {
      var q := done / limit;
      assert done + limit == (q + 1) * limit;
      MultipleMod(q + 1, limit);
    }
  }

  lemma MultipleMod(q: nat, n: nat)
    requires 1 <= n
    ensures (q * n) % n == 0
  {
    var x := q * n;
    var d := q - x / n;
    assert n * d == x % n by { assert x == n * (x / n) + x % n; }
    assert 0 <= n * d < n;
    assert d == 0;
  }

  /** Selecting by row id picks exactly the records of the batch. */
  lemma PickedByRowid(v1: V1Chain, peakHash: Hex32, peakHeight: int, walked: seq<RecordRow>, batch: seq<RecordRow>,
                      hash: Hex32, height: int, rowids: seq<int>)
    requires Keyed(v1) && |rowids| == |batch|
    requires Visits(v1, peakHash, peakHeight, walked + batch, hash, height)
    requires forall i :: 0 <= i < |batch| ==> rowids[i] == batch[i].rowid
    ensures (set r | r in v1.records && r.rowid in rowids) == Elements(batch)
  {
    forall i | 0 <= i < |batch|
      ensures batch[i] in v1.records
    {
      assert batch[i] == (walked + batch)[|walked| + i];
    }
    forall r | r in batch
      ensures r in v1.records && r.rowid in rowids
    {
      var i :| 0 <= i < |batch| && batch[i] == r;
      assert rowids[i] == r.rowid;
    }
    forall r | r in v1.records && r.rowid in rowids
      ensures r in batch
    {
      var i :| 0 <= i < |rowids| && rowids[i] == r.rowid;
    }
  }

  lemma ConvertUnion(v1: V1Chain, codec: Codec, a: seq<RecordRow>, b: seq<RecordRow>)
    ensures ConvertRows(v1, codec, Elements(a + b)) == ConvertRows(v1, codec, Elements(a))
            + ConvertRows(v1, codec, Elements(b))
  {
    assert Elements(a + b) == Elements(a) + Elements(b);
  }
}
