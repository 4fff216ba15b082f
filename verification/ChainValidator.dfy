/** The v2 blockchain database and `validate_v2`, the one-pass check of its main chain. */
module ChainValidator {
  import opened Bytes

  // ------------------------------------------------------------ the database

  /** What decoding a stored full block reveals. */
  datatype BlockFacts = BlockFacts(headerHash: Bytes32, prevHash: Bytes32, height: int, totalIters: int)

  /** What decoding a stored block record reveals. */
  datatype RecordFacts = RecordFacts(headerHash: Bytes32, prevHash: Bytes32, totalIters: int)

  /** The foreign codecs: zstd, and the two streamable parsers. None is an exception. */
  datatype Codec = Codec(
    compress: Blob -> Blob,
    decompress: Blob -> Option<Blob>,
    parseBlock: Blob -> Option<BlockFacts>,
    parseRecord: Blob -> Option<RecordFacts>)

  /** A row of the v2 table full_blocks. */
  datatype BlockRow = BlockRow(
    headerHash: Bytes32,
    prevHash: Bytes32,
    height: int,
    subEpochSummary: Option<Blob>,
    isFullyCompactified: int,
    inMainChain: bool,
    block: Blob,
    blockRecord: Blob)

  /** header_hash is the primary key of full_blocks. */
  ghost predicate KeyedByHash(table: set<BlockRow>) {
    forall r, s :: r in table && s in table && r.headerHash == s.headerHash ==> r == s
  }

  /** `rows` is a result of SELECT ... ORDER BY height DESC: each row once, ties in any order. */
  ghost predicate IsCursor(rows: seq<BlockRow>, table: set<BlockRow>) {
    && (forall r :: r in rows <==> r in table)
    && (forall i, j :: 0 <= i < j < |rows| ==> rows[i] != rows[j])
    && Descending(rows)
  }

  ghost predicate Descending(rows: seq<BlockRow>) {
    forall i, j :: 0 <= i < j < |rows| ==> rows[i].height >= rows[j].height
  }

  /** The version and peak cells: an outer None is a missing table, an inner None a missing row. */
  datatype V2Db = V2Db(version: Option<Option<int>>, peak: Option<Option<Bytes32>>, fullBlocks: set<BlockRow>)

  // ------------------------------------------------------------ the scan

  datatype Fault =
    | NoVersionTable
    | NoVersion
    | WrongVersion(found: int)
    | NoPeakTable
    | NoPeak
    | NoPeakBlock
    | NegativePeakHeight
    | UndecodableBlob(hash: Bytes32)
    | BlobHashMismatch(hash: Bytes32)
    | RecordHashMismatch(hash: Bytes32)
    | TotalItersMismatch(hash: Bytes32)
    | RecordPrevMismatch(hash: Bytes32)
    | BlobHeightMismatch(hash: Bytes32)
    | MissingBlock(hash: Bytes32, height: int)
    | MultipleBlocks(hash: Bytes32, height: int)
    | MainChainNotSet(hash: Bytes32, height: int)
    | BlobPrevMismatch(hash: Bytes32)
    | OrphanInMainChain(hash: Bytes32, height: int)
    | MissingBelow(height: int)
    | WrongGenesis(nextHash: Option<Bytes32>)

  datatype Report = Report(numOrphans: nat, heightToHash: Blob)

  /** The arguments of the scan that do not change. */
  datatype Params = Params(validateBlocks: bool, codec: Codec, peakHeight: int)

  /** The variables of the scan loop. */
  datatype Scan = Scan(
    currentHeight: int,
    expectHash: Bytes32,
    nextHash: Option<Bytes32>,
    numOrphans: nat,
    heightToHash: Blob)

  function DecodedBlock(codec: Codec, row: BlockRow): Option<BlockFacts> {
    match codec.decompress(row.block)
    case None => None
    case Some(raw) => codec.parseBlock(raw)
  }

  /** What decoding must reveal, told from the codec alone: block and record can be read, both name the hash of
      the row, they agree on their total iterations and on their parent, and the block is of the row's height. */
  ghost predicate Authentic(codec: Codec, row: BlockRow) {
    && codec.decompress(row.block).Some?
    && codec.parseBlock(codec.decompress(row.block).value).Some?
    && codec.parseRecord(row.blockRecord).Some?
    && var block := codec.parseBlock(codec.decompress(row.block).value).value;
       var record := codec.parseRecord(row.blockRecord).value;
       && block.headerHash == row.headerHash == record.headerHash
       && block.totalIters == record.totalIters
       && block.prevHash == record.prevHash
       && block.height == row.height
  }

  /** The block of the row can be read, and names the parent of the row. */
  ghost predicate NamesParent(codec: Codec, row: BlockRow) {
    && codec.decompress(row.block).Some?
    && codec.parseBlock(codec.decompress(row.block).value).Some?
    && codec.parseBlock(codec.decompress(row.block).value).value.prevHash == row.prevHash
  }

  /** The fault reported for a row is one that it has. */
  ghost predicate HasFlaw(codec: Codec, row: BlockRow, fault: Fault) {
    var raw, record := codec.decompress(row.block), codec.parseRecord(row.blockRecord);
    var block := if raw.Some? then codec.parseBlock(raw.value) else None;
    match fault
    case UndecodableBlob(hash) => hash == row.headerHash && (block.None? || record.None?)
    case BlobHashMismatch(hash) => hash == row.headerHash && block.Some? && block.value.headerHash != hash
    case RecordHashMismatch(hash) => hash == row.headerHash && record.Some? && record.value.headerHash != hash
    case TotalItersMismatch(hash) =>
      hash == row.headerHash && block.Some? && record.Some? && block.value.totalIters != record.value.totalIters
    case RecordPrevMismatch(hash) =>
      hash == row.headerHash && block.Some? && record.Some? && block.value.prevHash != record.value.prevHash
    case BlobHeightMismatch(hash) => hash == row.headerHash && block.Some? && block.value.height != row.height
    case _ => false
  }

  /** The checks made on every row when block decoding is requested. */
  function BlobFault(codec: Codec, row: BlockRow): (fault: Option<Fault>)
    ensures fault.None? <==> Authentic(codec, row)
    ensures fault.Some? ==> HasFlaw(codec, row, fault.value)
  {
    var block := DecodedBlock(codec, row);
    var record := codec.parseRecord(row.blockRecord);
    if block.None? || record.None? then Some(UndecodableBlob(row.headerHash))
    else if block.value.headerHash != row.headerHash then Some(BlobHashMismatch(row.headerHash))
    else if record.value.headerHash != row.headerHash then Some(RecordHashMismatch(row.headerHash))
    else if record.value.totalIters != block.value.totalIters then Some(TotalItersMismatch(row.headerHash))
    else if record.value.prevHash != block.value.prevHash then Some(RecordPrevMismatch(row.headerHash))
    else if block.value.height != row.height then Some(BlobHeightMismatch(row.headerHash))
    else None
  }

  ghost predicate RowDecodes(p: Params, row: BlockRow) {
    p.validateBlocks ==> Authentic(p.codec, row)
  }

  ghost predicate PrevDecodes(p: Params, row: BlockRow) {
    p.validateBlocks ==> NamesParent(p.codec, row)
  }

  /** The check made on main-chain rows when block decoding is requested. */
  predicate PrevMatches(codec: Codec, row: BlockRow)
    ensures PrevMatches(codec, row) <==> NamesParent(codec, row)
  {
    DecodedBlock(codec, row).Some? && DecodedBlock(codec, row).value.prevHash == row.prevHash
  }

  /** The state in which a row at `height` is looked at, after a possible level change. */
  function AtLevel(st: Scan, height: int): Scan
    requires height != st.currentHeight ==> st.nextHash.Some?
  {
    if height != st.currentHeight
    then st.(currentHeight := height, expectHash := st.nextHash.value, nextHash := None)
    else st
  }

  /** One iteration of the scan loop. */
  function Step(p: Params, st: Scan, row: BlockRow): Result<Scan, Fault> {
    if row.height > p.peakHeight then Ok(st)
    else if p.validateBlocks && BlobFault(p.codec, row).Some? then Err(BlobFault(p.codec, row).value)
    else if row.height != st.currentHeight && st.nextHash.None? then
      Err(MissingBlock(st.expectHash, st.currentHeight))
    else
      var s := AtLevel(st, row.height);
      if row.headerHash == s.expectHash then
        if s.nextHash.Some? then Err(MultipleBlocks(row.headerHash, row.height))
        else if !row.inMainChain then Err(MainChainNotSet(row.headerHash, row.height))
        else if p.validateBlocks && !PrevMatches(p.codec, row) then Err(BlobPrevMismatch(row.headerHash))
        else Ok(s.(nextHash := Some(row.prevHash),
                   heightToHash := SliceAssign(s.heightToHash, row.height * 32, row.height * 32 + 32, row.headerHash)))
      else if row.inMainChain then Err(OrphanInMainChain(row.headerHash, row.height))
      else Ok(s.(numOrphans := s.numOrphans + 1))
  }

  function ScanFrom(p: Params, st: Scan, rows: seq<BlockRow>): Result<Scan, Fault>
    decreases |rows|
  {
    if rows == [] then Ok(st)
    else
      match Step(p, st, rows[0])
      case Err(e) => Err(e)
      case Ok(st') => ScanFrom(p, st', rows[1..])
  }

  function Start(peak: Bytes32, peakHeight: nat): Scan {
    Scan(peakHeight, peak, None, 0, seq(peakHeight * 32, _ => 0))
  }

  /** The scan of all rows, followed by the two checks after the loop. */
  function Verdict(p: Params, peak: Bytes32, genesis: Bytes32, rows: seq<BlockRow>): Result<Report, Fault> {
    if p.peakHeight < 0 then Err(NegativePeakHeight)
    else
      match ScanFrom(p, Start(peak, p.peakHeight), rows)
      case Err(e) => Err(e)
      case Ok(st) =>
        if st.currentHeight != 0 then Err(MissingBelow(st.currentHeight))
        else if st.nextHash != Some(genesis) then Err(WrongGenesis(st.nextHash))
        else Ok(Report(st.numOrphans, st.heightToHash))
  }

  /** The fault raised before the scan, or the height of the peak block. */
  ghost function PeakHeight(db: V2Db): Result<(Bytes32, int), Fault> {
    if db.version.None? then Err(NoVersionTable)
    else if db.version.value.None? then Err(NoVersion)
    else if db.version.value.value != 2 then Err(WrongVersion(db.version.value.value))
    else if db.peak.None? then Err(NoPeakTable)
    else if db.peak.value.None? then Err(NoPeak)
    else
      var peak := db.peak.value.value;
      if exists row :: row in db.fullBlocks && row.headerHash == peak then
        var row :| row in db.fullBlocks && row.headerHash == peak;
        Ok((peak, row.height))
      else Err(NoPeakBlock)
  }

  // ------------------------------------------------------------ what is decided

  /** Rows below or at the peak are the ones the scan looks at. */
  ghost predicate Main(p: Params, table: set<BlockRow>, r: BlockRow) {
    r in table && r.height <= p.peakHeight && r.inMainChain
  }

  /** The property of the whole table that one pass decides, with no reference to an order:
      every height present at or below the peak has exactly one row marked as main chain, the
      top one is the peak, consecutive heights present are linked by prev_hash, and the lowest
      is height 0 with the genesis challenge as its parent. */
  ghost predicate WellFormedChain(p: Params, peak: Bytes32, genesis: Bytes32, table: set<BlockRow>) {
    && (forall r :: r in table && r.height <= p.peakHeight ==>
          && 0 <= r.height
          && RowDecodes(p, r)
          && (r.inMainChain ==> PrevDecodes(p, r))
          && HasMain(p, table, r.height))
    && (forall r, s :: Main(p, table, r) && Main(p, table, s) && r.height == s.height ==> r == s)
    && (forall r, s :: Main(p, table, r) && Main(p, table, s) && NextLevel(table, r, s) ==> r.prevHash == s.headerHash)
    && (exists r :: Main(p, table, r) && r.height == p.peakHeight && r.headerHash == peak)
    && (exists r :: Main(p, table, r) && r.height == 0 && r.prevHash == genesis)
  }

  ghost predicate HasMain(p: Params, table: set<BlockRow>, height: int) {
    exists s :: Main(p, table, s) && s.height == height
  }

  /** s is on the next height present below that of r. */
  ghost predicate NextLevel(table: set<BlockRow>, r: BlockRow, s: BlockRow) {
    && s.height < r.height
    && forall t :: t in table ==> !(s.height < t.height < r.height)
  }

  /** The same property told as a walk: `chain` lists the main chain from the peak down to height 0. */
  ghost predicate IsMainChain(p: Params, peak: Bytes32, genesis: Bytes32, table: set<BlockRow>, chain: seq<BlockRow>) {
    && Walk(p, peak, chain)
    && |chain| > 0
    && chain[|chain| - 1].height == 0
    && chain[|chain| - 1].prevHash == genesis
    && (forall i :: 0 <= i < |chain| ==> chain[i] in table)
    && (forall r :: r in table && r.height <= p.peakHeight ==>
          RowDecodes(p, r) && Covers(chain, r.height) && Settled(chain, r))
  }

  /** A linked run of main-chain rows that starts at the peak. */
  ghost predicate Walk(p: Params, peak: Bytes32, chain: seq<BlockRow>) {
    && (|chain| > 0 ==> chain[0].headerHash == peak && chain[0].height == p.peakHeight)
    && (forall i :: 0 <= i < |chain| ==> chain[i].inMainChain && PrevDecodes(p, chain[i]))
    && (forall i :: 0 < i < |chain| ==> chain[i - 1].prevHash == chain[i].headerHash)
    && (forall i, j :: 0 <= i < j < |chain| ==> chain[i].height > chain[j].height)
  }

  ghost predicate Covers(chain: seq<BlockRow>, height: int) {
    exists i :: 0 <= i < |chain| && chain[i].height == height
  }

  /** Against every chain row of its own height, r is that row or an unmarked row with another hash. */
  ghost predicate Settled(chain: seq<BlockRow>, r: BlockRow) {
    forall i :: 0 <= i < |chain| && chain[i].height == r.height ==>
      r == chain[i] || (r.headerHash != chain[i].headerHash && !r.inMainChain)
  }

  /** The number of rows at or below the peak. */
  function Relevant(p: Params, rows: seq<BlockRow>): nat {
    if rows == [] then 0
    else Relevant(p, rows[..|rows| - 1]) + if rows[|rows| - 1].height <= p.peakHeight then 1 else 0
  }

  /** The lookup buffer holds the chain's hashes at their heights and zeros elsewhere. */
  ghost predicate Indexes(buf: Blob, peakHeight: nat, chain: seq<BlockRow>) {
    && |buf| == 32 * (if |chain| == 0 then peakHeight else peakHeight + 1)
    && forall h :: 0 <= h < |buf| / 32 ==>
         && (!Covers(chain, h) ==> HashAt(buf, h) == seq(32, _ => 0))
         && (forall i :: 0 <= i < |chain| && chain[i].height == h ==> HashAt(buf, h) == chain[i].headerHash)
  }

  // ------------------------------------------------------------ accepted scans walk the chain

  /** What the loop variables mean after the rows `done`: `chain` is the walk found so far. */
  ghost predicate Tracks(p: Params, peak: Bytes32, done: seq<BlockRow>, st: Scan, chain: seq<BlockRow>) {
    && Walk(p, peak, chain)
    && (forall i :: 0 <= i < |chain| ==> chain[i] in done)
    && (forall r :: r in done && r.height <= p.peakHeight ==>
          && RowDecodes(p, r) && Settled(chain, r) && st.currentHeight <= r.height
          && (Covers(chain, r.height) || (st.nextHash.None? && r.height == st.currentHeight)))
    && (st.nextHash.None? ==>
          && (if |chain| == 0 then st.expectHash == peak && st.currentHeight == p.peakHeight
              else st.expectHash == chain[|chain| - 1].prevHash && st.currentHeight < chain[|chain| - 1].height)
          && (forall r :: r in done && r.height == st.currentHeight ==>
              !r.inMainChain && r.headerHash != st.expectHash))
    && (st.nextHash.Some? ==>
          && |chain| > 0
          && var last := chain[|chain| - 1];
             last.height == st.currentHeight && last.headerHash == st.expectHash && last.prevHash == st.nextHash.value)
  }

  /** The chain after one more row. */
  ghost function Extend(p: Params, st: Scan, row: BlockRow, chain: seq<BlockRow>): seq<BlockRow>
    requires Step(p, st, row).Ok?
  {
    if row.height <= p.peakHeight && row.headerHash == AtLevel(st, row.height).expectHash then chain + [row] else chain
  }

  /** Moving down a level keeps the meaning of the variables. */
  lemma LevelTracks(p: Params, peak: Bytes32, done: seq<BlockRow>, st: Scan, chain: seq<BlockRow>, height: int)
    requires Tracks(p, peak, done, st, chain)
    requires height < st.currentHeight && st.nextHash.Some?
    ensures Tracks(p, peak, done, AtLevel(st, height), chain)
  {
  }

  lemma OrphanTracks(p: Params, peak: Bytes32, done: seq<BlockRow>, s: Scan, chain: seq<BlockRow>, row: BlockRow,
                     s': Scan)
    requires Tracks(p, peak, done, s, chain)
    requires row.height == s.currentHeight && row.headerHash != s.expectHash && !row.inMainChain && RowDecodes(p, row)
    requires s' == s.(numOrphans := s'.numOrphans)
    ensures Tracks(p, peak, done + [row], s', chain)
  {
    assert Settled(chain, row);
    assert s.nextHash.Some? ==> Covers(chain, row.height);
  }

  lemma WalkExtends(p: Params, peak: Bytes32, chain: seq<BlockRow>, row: BlockRow)
    requires Walk(p, peak, chain) && row.inMainChain && PrevDecodes(p, row)
    requires if |chain| == 0 then row.headerHash == peak && row.height == p.peakHeight
             else row.headerHash == chain[|chain| - 1].prevHash && row.height < chain[|chain| - 1].height
    ensures Walk(p, peak, chain + [row])
    ensures forall h :: Covers(chain + [row], h) <==> h == row.height || Covers(chain, h)
    ensures forall r :: Settled(chain + [row], r) <==>
                        Settled(chain, r) &&
                        (r.height == row.height ==> r == row || (r.headerHash != row.headerHash && !r.inMainChain))
  {
    var chain' := chain + [row];
    assert chain'[|chain|] == row;
    forall h | Covers(chain, h)
      ensures Covers(chain', h)
    {
      var i :| 0 <= i < |chain| && chain[i].height == h;
      assert chain'[i].height == h;
    }
    forall r | Settled(chain', r)
      ensures Settled(chain, r)
    {
      forall i | 0 <= i < |chain| && chain[i].height == r.height
        ensures r == chain[i] || (r.headerHash != chain[i].headerHash && !r.inMainChain)
      {
        assert chain'[i] == chain[i];
      }
    }
  }

  lemma HitTracks(p: Params, peak: Bytes32, done: seq<BlockRow>, s: Scan, chain: seq<BlockRow>, row: BlockRow, s': Scan)
    requires Tracks(p, peak, done, s, chain)
    requires row.height == s.currentHeight && row.headerHash == s.expectHash && row.inMainChain
    requires s.nextHash.None? && RowDecodes(p, row) && PrevDecodes(p, row)
    requires s' == s.(nextHash := Some(row.prevHash), heightToHash := s'.heightToHash)
    ensures Tracks(p, peak, done + [row], s', chain + [row])
  {
    WalkExtends(p, peak, chain, row);
    assert Settled(chain, row) by {
      forall i | 0 <= i < |chain|
        ensures chain[i].height > row.height
      {
        assert chain[i].height >= chain[|chain| - 1].height;
      }
    }
  }

  /** Heights still to come are no larger than the current one. */
  ghost predicate Below(p: Params, rest: seq<BlockRow>, height: int) {
    Descending(rest) && forall r :: r in rest && r.height <= p.peakHeight ==> r.height <= height
  }

  lemma StepBelow(p: Params, st: Scan, rest: seq<BlockRow>)
    requires rest != [] && Below(p, rest, st.currentHeight) && Step(p, st, rest[0]).Ok?
    ensures rest[0].height <= p.peakHeight ==> rest[0].height <= st.currentHeight
    ensures Below(p, rest[1..], Step(p, st, rest[0]).value.currentHeight)
    ensures Step(p, st, rest[0]).value.currentHeight <= st.currentHeight
  {
    assert forall r :: r in rest[1..] ==> r in rest && r.height <= rest[0].height;
  }

  lemma SkipTracks(p: Params, peak: Bytes32, done: seq<BlockRow>, st: Scan, chain: seq<BlockRow>, row: BlockRow)
    requires Tracks(p, peak, done, st, chain) && p.peakHeight < row.height && st.currentHeight <= p.peakHeight
    ensures Tracks(p, peak, done + [row], st, chain)
  {
    hide Walk, Settled, Covers, RowDecodes;
  }

  lemma StepTracks(p: Params, peak: Bytes32, done: seq<BlockRow>, st: Scan, chain: seq<BlockRow>, row: BlockRow)
    requires Tracks(p, peak, done, st, chain) && st.currentHeight <= p.peakHeight
    requires row.height <= p.peakHeight ==> row.height <= st.currentHeight
    requires Step(p, st, row).Ok?
    ensures Tracks(p, peak, done + [row], Step(p, st, row).value, Extend(p, st, row, chain))
  {
    hide Tracks, BlobFault, PrevMatches, Authentic, NamesParent, SliceAssign;
    if row.height <= p.peakHeight {
      var s := AtLevel(st, row.height);
      if row.height != st.currentHeight {
        LevelTracks(p, peak, done, st, chain, row.height);
      }
      if row.headerHash == s.expectHash {
        HitTracks(p, peak, done, s, chain, row, Step(p, st, row).value);
      } else {
        OrphanTracks(p, peak, done, s, chain, row, Step(p, st, row).value);
      }
    } else {
      SkipTracks(p, peak, done, st, chain, row);
    }
  }

  /** The counters kept beside the search: orphans, and the lookup buffer while heights are natural. */
  ghost predicate Accounts(p: Params, done: seq<BlockRow>, st: Scan, chain: seq<BlockRow>) {
    && st.numOrphans + |chain| == Relevant(p, done)
    && (0 <= st.currentHeight <= p.peakHeight ==> Indexes(st.heightToHash, p.peakHeight, chain))
  }

  lemma WriteIndexes(buf: Blob, peakHeight: nat, peak: Bytes32, p: Params, chain: seq<BlockRow>, row: BlockRow)
    requires p.peakHeight == peakHeight && Indexes(buf, peakHeight, chain)
    requires Walk(p, peak, chain + [row]) && 0 <= row.height <= peakHeight
    ensures Indexes(SliceAssign(buf, row.height * 32, row.height * 32 + 32, row.headerHash), peakHeight, chain + [row])
  {
    hide SliceAssign, HashAt, PrevDecodes;
    var chain' := chain + [row];
    assert chain'[|chain|] == row;
    var buf' := SliceAssign(buf, row.height * 32, row.height * 32 + 32, row.headerHash);
    assert |buf'| == 32 * (peakHeight + 1) by {
      if |chain| != 0 { SlotFrame(buf, row.height, row.headerHash, row.height); }
    }
    forall h | 0 <= h <= peakHeight
      ensures !Covers(chain', h) ==> HashAt(buf', h) == seq(32, _ => 0)
      ensures forall i :: 0 <= i < |chain'| && chain'[i].height == h ==> HashAt(buf', h) == chain'[i].headerHash
    {
      if |chain| == 0 {
        AppendSlotFrame(buf, peakHeight, row.headerHash, h);
      } else {
        SlotFrame(buf, row.height, row.headerHash, h);
      }
      if h != row.height {
        assert Covers(chain, h) ==> Covers(chain', h) by {
          if i :| 0 <= i < |chain| && chain[i].height == h {
            assert chain'[i].height == h;
          }
        }
      }
    }
  }

  lemma StepAccounts(p: Params, peak: Bytes32, done: seq<BlockRow>, st: Scan, chain: seq<BlockRow>, row: BlockRow)
    requires Tracks(p, peak, done, st, chain) && Accounts(p, done, st, chain)
    requires st.currentHeight <= p.peakHeight && (row.height <= p.peakHeight ==> row.height <= st.currentHeight)
    requires Step(p, st, row).Ok?
    ensures Accounts(p, done + [row], Step(p, st, row).value, Extend(p, st, row, chain))
  {
    hide Tracks, RowDecodes, PrevDecodes, Indexes, SliceAssign;
    assert (done + [row])[..|done|] == done;
    var st' := Step(p, st, row).value;
    if 0 <= row.height <= p.peakHeight && row.headerHash == AtLevel(st, row.height).expectHash {
      StepTracks(p, peak, done, st, chain, row);
      assert Walk(p, peak, chain + [row]) by { TracksWalk(p, peak, done + [row], st', chain + [row]); }
      WriteIndexes(st.heightToHash, p.peakHeight, peak, p, chain, row);
    }
  }

  lemma TracksWalk(p: Params, peak: Bytes32, done: seq<BlockRow>, st: Scan, chain: seq<BlockRow>)
    requires Tracks(p, peak, done, st, chain)
    ensures Walk(p, peak, chain)
  {
  }

  lemma {:induction false} ScanTracks(p: Params, peak: Bytes32, done: seq<BlockRow>, st: Scan, chain: seq<BlockRow>,
                                      rest: seq<BlockRow>) returns (full: seq<BlockRow>)
    requires Tracks(p, peak, done, st, chain) && Accounts(p, done, st, chain)
    requires Below(p, rest, st.currentHeight) && st.currentHeight <= p.peakHeight
    requires ScanFrom(p, st, rest).Ok?
    ensures Tracks(p, peak, done + rest, ScanFrom(p, st, rest).value, full)
    ensures Accounts(p, done + rest, ScanFrom(p, st, rest).value, full)
    decreases |rest|
  {
    hide Tracks, Accounts, Below, Step, AtLevel, Extend;
    if rest == [] {
      assert done + rest == done;
      full := chain;
    } else {
      var row, tail := rest[0], rest[1..];
      var st' := Step(p, st, row).value;
      StepBelow(p, st, rest);
      StepTracks(p, peak, done, st, chain, row);
      StepAccounts(p, peak, done, st, chain, row);
      full := ScanTracks(p, peak, done + [row], st', Extend(p, st, row, chain), tail);
      assert done + rest == (done + [row]) + tail;
    }
  }

  /** An accepted table has a main chain that the scan walked; the report counts every other row
      at or below the peak as an orphan, and its buffer is the height-to-hash index of the chain. */
  lemma AcceptedChain(p: Params, peak: Bytes32, genesis: Bytes32, table: set<BlockRow>, rows: seq<BlockRow>)
    returns (chain: seq<BlockRow>)
    requires IsCursor(rows, table)
    requires Verdict(p, peak, genesis, rows).Ok?
    ensures IsMainChain(p, peak, genesis, table, chain)
    ensures Verdict(p, peak, genesis, rows).value.numOrphans + |chain| == Relevant(p, rows)
    ensures p.peakHeight >= 0 && Indexes(Verdict(p, peak, genesis, rows).value.heightToHash, p.peakHeight, chain)
  {
    hide RowDecodes, PrevDecodes, Tracks, Below, Indexes, IsMainChain, ScanFrom, Relevant;
    var st := Start(peak, p.peakHeight);
    StartTracks(p, peak, table, rows);
    chain := ScanTracks(p, peak, [], st, [], rows);
    assert [] + rows == rows;
    TracksToChain(p, peak, genesis, table, rows, ScanFrom(p, st, rows).value, chain);
  }

  lemma StartAtPeak(p: Params, peak: Bytes32)
    requires 0 <= p.peakHeight
    ensures Start(peak, p.peakHeight).currentHeight == p.peakHeight
  {
  }

  lemma StartTracks(p: Params, peak: Bytes32, table: set<BlockRow>, rows: seq<BlockRow>)
    requires 0 <= p.peakHeight && IsCursor(rows, table)
    ensures Tracks(p, peak, [], Start(peak, p.peakHeight), []) && Accounts(p, [], Start(peak, p.peakHeight), [])
    ensures Below(p, rows, p.peakHeight)
  {
  }

  lemma TracksToChain(p: Params, peak: Bytes32, genesis: Bytes32, table: set<BlockRow>, rows: seq<BlockRow>, st: Scan,
                      chain: seq<BlockRow>)
    requires IsCursor(rows, table) && Tracks(p, peak, rows, st, chain)
    requires st.currentHeight == 0 && st.nextHash == Some(genesis)
    ensures IsMainChain(p, peak, genesis, table, chain)
  {
    hide RowDecodes, PrevDecodes, Settled, Covers, Walk;
  }

  /** A main chain makes the table well formed. */
  lemma ChainIsWellFormed(p: Params, peak: Bytes32, genesis: Bytes32, table: set<BlockRow>, chain: seq<BlockRow>)
    requires IsMainChain(p, peak, genesis, table, chain)
    ensures WellFormedChain(p, peak, genesis, table)
  {
    hide RowDecodes, PrevDecodes;
    var n := |chain|;
    forall r | r in table && r.height <= p.peakHeight
      ensures 0 <= r.height && (r.inMainChain ==> r in chain && PrevDecodes(p, r)) && HasMain(p, table, r.height)
    {
      var i :| 0 <= i < n && chain[i].height == r.height;
      assert Main(p, table, chain[i]);
    }
    forall r, s | Main(p, table, r) && Main(p, table, s) && NextLevel(table, r, s)
      ensures r.prevHash == s.headerHash
    {
      ChainLinks(p, peak, genesis, table, chain, r, s);
    }
    assert Main(p, table, chain[0]);
    assert Main(p, table, chain[n - 1]);
  }

  lemma ChainLinks(p: Params, peak: Bytes32, genesis: Bytes32, table: set<BlockRow>, chain: seq<BlockRow>, r: BlockRow,
                   s: BlockRow)
    requires IsMainChain(p, peak, genesis, table, chain)
    requires Main(p, table, r) && Main(p, table, s) && NextLevel(table, r, s)
    ensures r.prevHash == s.headerHash
  {
    hide RowDecodes, PrevDecodes;
    var i :| 0 <= i < |chain| && chain[i].height == r.height;
    var j :| 0 <= j < |chain| && chain[j].height == s.height;
    assert chain[i] == r && chain[j] == s;
    assert i + 1 <= j;
    assert chain[i + 1] in table;
  }

  // ------------------------------------------------------------ well-formed tables are accepted

  /** After the first k rows of a well-formed table, m is the main-chain row of the current height. */
  ghost predicate OnCourse(p: Params, table: set<BlockRow>, rows: seq<BlockRow>, k: nat, st: Scan, m: BlockRow)
    requires k <= |rows|
  {
    && Main(p, table, m)
    && m.height == st.currentHeight
    && m.headerHash == st.expectHash
    && st.nextHash == (if m in rows[..k] then Some(m.prevHash) else None)
    && (forall r :: r in rows[..k] && r.height <= p.peakHeight ==> st.currentHeight <= r.height)
    && (forall r :: r in rows[k..] && r.height <= p.peakHeight ==> r.height <= st.currentHeight)
  }

  /** Where the cursor drops to a lower height, the scan has already met the main-chain row above. */
  lemma LevelOnCourse(p: Params, peak: Bytes32, genesis: Bytes32, table: set<BlockRow>, rows: seq<BlockRow>, k: nat,
                      st: Scan, m: BlockRow) returns (m': BlockRow)
    requires IsCursor(rows, table) && WellFormedChain(p, peak, genesis, table)
    requires k < |rows| && OnCourse(p, table, rows, k, st, m)
    requires rows[k].height <= p.peakHeight
    ensures rows[k].height != st.currentHeight ==> st.nextHash.Some?
    ensures OnCourse(p, table, rows, k, AtLevel(st, rows[k].height), m')
  {
    hide RowDecodes, PrevDecodes;
    var row := rows[k];
    assert row in table;
    if row.height == st.currentHeight {
      m' := m;
    } else {
      assert m in rows && row == rows[k..][0];
      var i :| 0 <= i < |rows| && rows[i] == m;
      assert i < k && m == rows[..k][i];
      assert HasMain(p, table, row.height);
      m' :| Main(p, table, m') && m'.height == row.height;
      assert NextLevel(table, m, m') by {
        forall t | t in table
          ensures !(m'.height < t.height < m.height)
        {
          var j :| 0 <= j < |rows| && rows[j] == t;
          if j < k {
            assert t == rows[..k][j];
          }
        }
      }
      assert m' !in rows[..k];
    }
  }

  lemma StepOnCourse(p: Params, peak: Bytes32, genesis: Bytes32, table: set<BlockRow>, rows: seq<BlockRow>, k: nat,
                     st: Scan, m: BlockRow) returns (m': BlockRow)
    requires KeyedByHash(table) && IsCursor(rows, table) && WellFormedChain(p, peak, genesis, table)
    requires k < |rows| && OnCourse(p, table, rows, k, st, m)
    ensures Step(p, st, rows[k]).Ok? && OnCourse(p, table, rows, k + 1, Step(p, st, rows[k]).value, m')
  {
    var row := rows[k];
    assert row in table && row !in rows[..k];
    assert row in rows[k..];
    if row.height > p.peakHeight {
      m' := m;
      NextOnCourse(p, table, rows, k, st, m, st);
    } else {
      m' := LevelOnCourse(p, peak, genesis, table, rows, k, st, m);
      assert row == m' <==> row.headerHash == m'.headerHash;
      assert row != m' ==> !row.inMainChain by {
        assert row.inMainChain ==> Main(p, table, row);
      }
      assert RowDecodes(p, row) && PrevDecodes(p, m');
      hide WellFormedChain, RowDecodes, PrevDecodes;
      NextOnCourse(p, table, rows, k, AtLevel(st, row.height), m', Step(p, st, row).value);
    }
  }

  /** What is left to show once row k has been taken: only the search result can change. */
  lemma NextOnCourse(p: Params, table: set<BlockRow>, rows: seq<BlockRow>, k: nat, s: Scan, m: BlockRow, s': Scan)
    requires k < |rows| && OnCourse(p, table, rows, k, s, m)
    requires rows[k].height <= p.peakHeight ==> rows[k].height == s.currentHeight
    requires s'.currentHeight == s.currentHeight && s'.expectHash == s.expectHash
    requires s'.nextHash == if rows[k] == m then Some(m.prevHash) else s.nextHash
    ensures OnCourse(p, table, rows, k + 1, s', m)
  {
    assert rows[..k + 1] == rows[..k] + [rows[k]] && rows[k..] == [rows[k]] + rows[k + 1..];
  }

  lemma {:induction false} ScanOnCourse(p: Params, peak: Bytes32, genesis: Bytes32, table: set<BlockRow>,
                                        rows: seq<BlockRow>, k: nat, st: Scan, m: BlockRow) returns (m': BlockRow)
    requires KeyedByHash(table) && IsCursor(rows, table) && WellFormedChain(p, peak, genesis, table)
    requires k <= |rows| && OnCourse(p, table, rows, k, st, m)
    ensures ScanFrom(p, st, rows[k..]).Ok?
    ensures OnCourse(p, table, rows, |rows|, ScanFrom(p, st, rows[k..]).value, m')
    decreases |rows| - k
  {
    hide OnCourse, WellFormedChain, IsCursor, KeyedByHash, Step;
    if k == |rows| {
      m' := m;
    } else {
      m' := StepOnCourse(p, peak, genesis, table, rows, k, st, m);
      m' := ScanOnCourse(p, peak, genesis, table, rows, k + 1, Step(p, st, rows[k]).value, m');
    }
  }

  lemma WellFormedIsAccepted(p: Params, peak: Bytes32, genesis: Bytes32, table: set<BlockRow>, rows: seq<BlockRow>)
    requires KeyedByHash(table) && IsCursor(rows, table) && WellFormedChain(p, peak, genesis, table)
    ensures Verdict(p, peak, genesis, rows).Ok?
  {
    var top :| Main(p, table, top) && top.height == p.peakHeight && top.headerHash == peak;
    var st := Start(peak, p.peakHeight);
    var m := ScanOnCourse(p, peak, genesis, table, rows, 0, st, top);
    assert rows[0..] == rows && rows[..|rows|] == rows;
    var bottom :| Main(p, table, bottom) && bottom.height == 0 && bottom.prevHash == genesis;
    assert m in rows && bottom in rows;
  }

  // ------------------------------------------------------------ the verdict

  /** The one-pass scan decides the property of the whole table, whatever order the cursor
      gives to rows of equal height. */
  lemma {:induction false} ScanDecidesChain(p: Params, peak: Bytes32, genesis: Bytes32, table: set<BlockRow>,
                                            rows: seq<BlockRow>)
    requires KeyedByHash(table) && IsCursor(rows, table)
    ensures Verdict(p, peak, genesis, rows).Ok? <==> WellFormedChain(p, peak, genesis, table)
    ensures Verdict(p, peak, genesis, rows).Ok? <==> exists chain :: IsMainChain(p, peak, genesis, table, chain)
  {
    if Verdict(p, peak, genesis, rows).Ok? {
      var chain := AcceptedChain(p, peak, genesis, table, rows);
    }
    if chain :| IsMainChain(p, peak, genesis, table, chain) {
      ChainIsWellFormed(p, peak, genesis, table, chain);
    }
    if WellFormedChain(p, peak, genesis, table) {
      WellFormedIsAccepted(p, peak, genesis, table, rows);
    }
  }

  /** A table has at most one main chain. */
  lemma ChainUnique(p: Params, peak: Bytes32, genesis: Bytes32, table: set<BlockRow>, c: seq<BlockRow>,
                    d: seq<BlockRow>)
    requires KeyedByHash(table)
    requires IsMainChain(p, peak, genesis, table, c) && IsMainChain(p, peak, genesis, table, d)
    ensures c == d
  {
    hide RowDecodes, PrevDecodes;
    var n := if |c| < |d| then |c| else |d|;
    for k := 0 to n
      invariant forall i :: 0 <= i < k ==> c[i] == d[i]
    {
      assert c[k] in table && d[k] in table && c[k].headerHash == d[k].headerHash;
    }
    assert c[n - 1].height == d[n - 1].height == 0;
  }

  lemma {:induction false} RelevantIsSize(p: Params, rows: seq<BlockRow>)
    requires forall i, j :: 0 <= i < j < |rows| ==> rows[i] != rows[j]
    ensures Relevant(p, rows) == |set r | r in rows && r.height <= p.peakHeight|
  {
    if rows != [] {
      var n := |rows| - 1;
      RelevantIsSize(p, rows[..n]);
      OneMore(p, rows[..n], rows[n]);
      assert rows == rows[..n] + [rows[n]];
    }
  }

  lemma OneMore(p: Params, init: seq<BlockRow>, last: BlockRow)
    requires last !in init
    ensures |set r | r in init + [last] && r.height <= p.peakHeight| ==
            |set r | r in init && r.height <= p.peakHeight| + if last.height <= p.peakHeight then 1 else 0
  {
    var before := set r | r in init && r.height <= p.peakHeight;
    var after := set r | r in init + [last] && r.height <= p.peakHeight;
    assert after == if last.height <= p.peakHeight then before + {last} else before;
  }

  lemma IndexUnique(a: Blob, b: Blob, peakHeight: nat, chain: seq<BlockRow>)
    requires Indexes(a, peakHeight, chain) && Indexes(b, peakHeight, chain)
    ensures a == b
  {
    forall k | 0 <= k < |a|
      ensures a[k] == b[k]
    {
      var h := k / 32;
      assert HashAt(a, h) == HashAt(b, h);
      assert a[k] == HashAt(a, h)[k - 32 * h] && b[k] == HashAt(b, h)[k - 32 * h];
    }
  }

  /** Verdict and report do not depend on how the cursor orders rows of equal height. */
  lemma {:induction false} VerdictIgnoresTies(p: Params, peak: Bytes32, genesis: Bytes32, table: set<BlockRow>,
                           rows: seq<BlockRow>, other: seq<BlockRow>)
    requires KeyedByHash(table) && IsCursor(rows, table) && IsCursor(other, table)
    ensures Verdict(p, peak, genesis, rows).Ok? <==> Verdict(p, peak, genesis, other).Ok?
    ensures Verdict(p, peak, genesis, rows).Ok? ==> Verdict(p, peak, genesis, rows) == Verdict(p, peak, genesis, other)
  {
    hide IsMainChain, Indexes, WellFormedChain, KeyedByHash, Verdict, Relevant;
    ScanDecidesChain(p, peak, genesis, table, rows);
    ScanDecidesChain(p, peak, genesis, table, other);
    if Verdict(p, peak, genesis, rows).Ok? {
      var c := AcceptedChain(p, peak, genesis, table, rows);
      var d := AcceptedChain(p, peak, genesis, table, other);
      ChainUnique(p, peak, genesis, table, c, d);
      RelevantIsSize(p, rows);
      RelevantIsSize(p, other);
      assert (set r | r in rows && r.height <= p.peakHeight) == (set r | r in other && r.height <= p.peakHeight);
      IndexUnique(Verdict(p, peak, genesis, rows).value.heightToHash,
                  Verdict(p, peak, genesis, other).value.heightToHash, p.peakHeight, c);
    }
  }

  // ------------------------------------------------------------ gaps between heights

  /** Above height 0, the parent of a main-chain row sits exactly one height lower. */
  ghost predicate ParentsOneBelow(p: Params, table: set<BlockRow>) {
    forall r, s :: Main(p, table, r) && Main(p, table, s) && r.height > 0 && r.prevHash == s.headerHash ==>
      s.height == r.height - 1
  }

  ghost predicate NoHeightMissing(p: Params, table: set<BlockRow>) {
    forall h :: 0 <= h <= p.peakHeight ==> HasMain(p, table, h)
  }

  lemma NoneMissing(p: Params, peak: Bytes32, genesis: Bytes32, table: set<BlockRow>)
    requires KeyedByHash(table) && WellFormedChain(p, peak, genesis, table) && NoHeightMissing(p, table)
    ensures ParentsOneBelow(p, table)
  {
    hide RowDecodes, PrevDecodes;
    forall r, s | Main(p, table, r) && Main(p, table, s) && r.height > 0 && r.prevHash == s.headerHash
      ensures s.height == r.height - 1
    {
      assert HasMain(p, table, r.height - 1);
      var t :| Main(p, table, t) && t.height == r.height - 1;
      assert NextLevel(table, r, t);
    }
  }

  /** The scan never compares a height with the one above it, so acceptance alone does not rule out
      missing heights. It does exactly when every main-chain parent sits one height lower. */
  lemma AcceptedContiguous(p: Params, peak: Bytes32, genesis: Bytes32, table: set<BlockRow>, rows: seq<BlockRow>)
    requires KeyedByHash(table) && IsCursor(rows, table)
    requires Verdict(p, peak, genesis, rows).Ok?
    ensures NoHeightMissing(p, table) <==> ParentsOneBelow(p, table)
  {
    hide RowDecodes, PrevDecodes, Verdict;
    var chain := AcceptedChain(p, peak, genesis, table, rows);
    ChainIsWellFormed(p, peak, genesis, table, chain);
    forall i | 0 <= i < |chain|
      ensures Main(p, table, chain[i])
    {
    }
    if NoHeightMissing(p, table) {
      NoneMissing(p, peak, genesis, table);
    }
    if ParentsOneBelow(p, table) {
      for k := 0 to |chain|
        invariant forall i :: 0 <= i < k ==> chain[i].height == p.peakHeight - i
      {
        if k > 0 {
          assert chain[k - 1].height > chain[k].height >= chain[|chain| - 1].height;
          assert chain[k].height == chain[k - 1].height - 1;
        }
      }
      forall h | 0 <= h <= p.peakHeight
        ensures HasMain(p, table, h)
      {
        assert Main(p, table, chain[p.peakHeight - h]);
      }
    }
  }

  /** A table with nothing at height 1 that is accepted all the same. */
  lemma GapIsAccepted(codec: Codec, a: Bytes32, b: Bytes32, genesis: Bytes32)
    requires a != b
    ensures var top := BlockRow(a, b, 2, None, 0, true, [], []);
            var bottom := BlockRow(b, genesis, 0, None, 0, true, [], []);
            var p := Params(false, codec, 2);
            && Verdict(p, a, genesis, [top, bottom]).Ok?
            && !NoHeightMissing(p, {top, bottom})
  {
    var top := BlockRow(a, b, 2, None, 0, true, [], []);
    var bottom := BlockRow(b, genesis, 0, None, 0, true, [], []);
    var p := Params(false, codec, 2);
    var table := {top, bottom};
    var st := Step(p, Start(a, 2), top).value;
    assert [top, bottom][1..] == [bottom] && [bottom][1..] == [];
    assert ScanFrom(p, Start(a, 2), [top, bottom]) == ScanFrom(p, st, [bottom]);
    assert ScanFrom(p, st, [bottom]) == Step(p, st, bottom);
    assert !HasMain(p, table, 1);
  }

  // ------------------------------------------------------------ refusals

  /** The hash looked for at a height: the peak, or the parent of a main-chain row above. */
  ghost predicate Expected(p: Params, peak: Bytes32, table: set<BlockRow>, hash: Bytes32, height: int) {
    || (hash == peak && height == p.peakHeight)
    || exists r :: Main(p, table, r) && r.prevHash == hash && height < r.height
  }

  /** A row the scan looks at. */
  ghost predicate Seen(p: Params, table: set<BlockRow>, r: BlockRow, hash: Bytes32, height: int) {
    r in table && r.height <= p.peakHeight && r.headerHash == hash && r.height == height
  }

  /** What is wrong with a table that the scan refuses with this fault. */
  ghost predicate Explains(p: Params, peak: Bytes32, genesis: Bytes32, table: set<BlockRow>, fault: Fault) {
    match fault
    case NegativePeakHeight => p.peakHeight < 0
    case MissingBlock(hash, height) =>
      && Expected(p, peak, table, hash, height)
      && forall r :: r in table && r.height == height ==> r.headerHash != hash
    case MainChainNotSet(hash, height) =>
      && Expected(p, peak, table, hash, height)
      && exists r :: Seen(p, table, r, hash, height) && !r.inMainChain
    case BlobPrevMismatch(hash) =>
      p.validateBlocks && exists r :: Main(p, table, r) && r.headerHash == hash && !NamesParent(p.codec, r)
    case OrphanInMainChain(hash, height) =>
      && (exists r :: Seen(p, table, r, hash, height) && r.inMainChain)
      && exists other :: other != hash && Expected(p, peak, table, other, height)
    case MissingBelow(height) =>
      height != 0 && forall r :: r in table && r.height <= p.peakHeight ==> height <= r.height
    case WrongGenesis(None) => forall r :: Main(p, table, r) ==> 0 < r.height
    case WrongGenesis(Some(hash)) =>
      hash != genesis && exists r :: Main(p, table, r) && r.height == 0 && r.prevHash == hash
    case _ => p.validateBlocks && exists r :: r in table && r.height <= p.peakHeight && HasFlaw(p.codec, r, fault)
  }

  /** The rows up to the one that stops a scan. */
  lemma {:induction false} ScanStops(p: Params, peak: Bytes32, done: seq<BlockRow>, st: Scan, chain: seq<BlockRow>,
                                     rest: seq<BlockRow>)
    returns (k: nat, last: Scan, found: seq<BlockRow>)
    requires Tracks(p, peak, done, st, chain)
    requires Below(p, rest, st.currentHeight) && st.currentHeight <= p.peakHeight
    requires ScanFrom(p, st, rest).Err?
    ensures k < |rest| && Tracks(p, peak, done + rest[..k], last, found) && Below(p, rest[k..], last.currentHeight)
    ensures last.currentHeight <= p.peakHeight && Step(p, last, rest[k]) == Err(ScanFrom(p, st, rest).error)
    decreases |rest|
  {
    hide Tracks, Below, Step, AtLevel, Extend;
    if Step(p, st, rest[0]).Err? {
      k, last, found := 0, st, chain;
      assert done + rest[..0] == done && rest[0..] == rest;
    } else {
      StepBelow(p, st, rest);
      StepTracks(p, peak, done, st, chain, rest[0]);
      k, last, found := ScanStops(p, peak, done + [rest[0]], Step(p, st, rest[0]).value, Extend(p, st, rest[0], chain),
                                  rest[1..]);
      k := k + 1;
      assert done + rest[..k] == (done + [rest[0]]) + rest[1..][..k - 1] && rest[k..] == rest[1..][k - 1..];
    }
  }

  /** What a scan looks for is expected. */
  lemma TracksExpects(p: Params, peak: Bytes32, table: set<BlockRow>, done: seq<BlockRow>, st: Scan,
                      chain: seq<BlockRow>)
    requires Tracks(p, peak, done, st, chain) && forall r :: r in done ==> r in table
    ensures Expected(p, peak, table, st.expectHash, st.currentHeight)
  {
    hide RowDecodes, PrevDecodes, Settled;
    var n := if st.nextHash.None? then |chain| else |chain| - 1;
    if n > 0 {
      assert Main(p, table, chain[n - 1]);
    }
  }

  lemma BlobExplains(p: Params, peak: Bytes32, genesis: Bytes32, table: set<BlockRow>, row: BlockRow)
    requires p.validateBlocks && row in table && row.height <= p.peakHeight && BlobFault(p.codec, row).Some?
    ensures Explains(p, peak, genesis, table, BlobFault(p.codec, row).value)
  {
    hide BlobFault, Authentic;
    var fault := BlobFault(p.codec, row).value;
    assert HasFlaw(p.codec, row, fault);
  }

  /** A height left without the block looked for. */
  lemma GapExplains(p: Params, peak: Bytes32, genesis: Bytes32, table: set<BlockRow>, done: seq<BlockRow>, st: Scan,
                    chain: seq<BlockRow>, rest: seq<BlockRow>)
    requires Tracks(p, peak, done, st, chain) && Descending(rest) && rest != []
    requires (forall r :: r in done || r in rest <==> r in table) && rest[0].height < st.currentHeight
    requires st.nextHash.None?
    ensures Explains(p, peak, genesis, table, MissingBlock(st.expectHash, st.currentHeight))
  {
    TracksExpects(p, peak, table, done, st, chain);
    hide Walk, Settled, Covers, Expected, RowDecodes;
  }

  /** Once found, a block is not found again. */
  lemma NeverTwice(p: Params, peak: Bytes32, table: set<BlockRow>, done: seq<BlockRow>, s: Scan, chain: seq<BlockRow>,
                   row: BlockRow)
    requires KeyedByHash(table) && Tracks(p, peak, done, s, chain) && (forall r :: r in done ==> r in table)
    requires row in table && row !in done && row.headerHash == s.expectHash
    ensures s.nextHash.None?
  {
    hide Walk, Settled, Covers, RowDecodes;
  }

  lemma UnsetExplains(p: Params, peak: Bytes32, genesis: Bytes32, table: set<BlockRow>, row: BlockRow)
    requires row in table && row.height <= p.peakHeight && !row.inMainChain
    requires Expected(p, peak, table, row.headerHash, row.height)
    ensures Explains(p, peak, genesis, table, MainChainNotSet(row.headerHash, row.height))
  {
    hide Expected;
    assert Seen(p, table, row, row.headerHash, row.height);
  }

  lemma ParentExplains(p: Params, peak: Bytes32, genesis: Bytes32, table: set<BlockRow>, row: BlockRow)
    requires Main(p, table, row)
    ensures p.validateBlocks && !PrevMatches(p.codec, row) ==>
              Explains(p, peak, genesis, table, BlobPrevMismatch(row.headerHash))
  {
    hide NamesParent, DecodedBlock;
  }

  lemma OrphanExplains(p: Params, peak: Bytes32, genesis: Bytes32, table: set<BlockRow>, row: BlockRow, other: Bytes32)
    requires row in table && row.height <= p.peakHeight && row.headerHash != other
    requires Expected(p, peak, table, other, row.height)
    ensures row.inMainChain ==> Explains(p, peak, genesis, table, OrphanInMainChain(row.headerHash, row.height))
  {
    hide Expected;
    assert Seen(p, table, row, row.headerHash, row.height);
  }

  /** A row refused at its height. */
  lemma RowExplains(p: Params, peak: Bytes32, genesis: Bytes32, table: set<BlockRow>, done: seq<BlockRow>, s: Scan,
                    chain: seq<BlockRow>, row: BlockRow)
    requires KeyedByHash(table) && Tracks(p, peak, done, s, chain) && (forall r :: r in done ==> r in table)
    requires row in table && row !in done && row.height == s.currentHeight <= p.peakHeight
    ensures row.headerHash == s.expectHash ==> s.nextHash.None?
    ensures row.headerHash == s.expectHash && !row.inMainChain ==>
              Explains(p, peak, genesis, table, MainChainNotSet(row.headerHash, row.height))
    ensures row.headerHash == s.expectHash && row.inMainChain && p.validateBlocks && !PrevMatches(p.codec, row) ==>
              Explains(p, peak, genesis, table, BlobPrevMismatch(row.headerHash))
    ensures row.headerHash != s.expectHash && row.inMainChain ==>
              Explains(p, peak, genesis, table, OrphanInMainChain(row.headerHash, row.height))
  {
    TracksExpects(p, peak, table, done, s, chain);
    if row.headerHash == s.expectHash {
      NeverTwice(p, peak, table, done, s, chain, row);
    }
    hide Tracks, Explains, PrevMatches, KeyedByHash;
    if row.headerHash != s.expectHash {
      OrphanExplains(p, peak, genesis, table, row, s.expectHash);
    } else if row.inMainChain {
      ParentExplains(p, peak, genesis, table, row);
    } else {
      UnsetExplains(p, peak, genesis, table, row);
    }
  }

  /** The fault that stops a scan is one of the table. */
  lemma StepExplains(p: Params, peak: Bytes32, genesis: Bytes32, table: set<BlockRow>, done: seq<BlockRow>, st: Scan,
                     chain: seq<BlockRow>, rest: seq<BlockRow>)
    requires KeyedByHash(table) && (forall r :: r in done || r in rest <==> r in table)
    requires rest != [] && rest[0] !in done && Tracks(p, peak, done, st, chain) && Below(p, rest, st.currentHeight)
    requires st.currentHeight <= p.peakHeight && Step(p, st, rest[0]).Err?
    ensures Explains(p, peak, genesis, table, Step(p, st, rest[0]).error)
  {
    hide Tracks, Explains, BlobFault, PrevMatches, KeyedByHash;
    var row := rest[0];
    assert row in table && (row.height <= p.peakHeight ==> row.height <= st.currentHeight);
    if p.validateBlocks && BlobFault(p.codec, row).Some? {
      BlobExplains(p, peak, genesis, table, row);
    } else if row.height != st.currentHeight && st.nextHash.None? {
      GapExplains(p, peak, genesis, table, done, st, chain, rest);
    } else {
      if row.height != st.currentHeight {
        LevelTracks(p, peak, done, st, chain, row.height);
      }
      RowExplains(p, peak, genesis, table, done, AtLevel(st, row.height), chain, row);
    }
  }

  lemma CursorCut(rows: seq<BlockRow>, table: set<BlockRow>, k: nat)
    requires IsCursor(rows, table) && k < |rows|
    ensures forall r :: r in rows[..k] || r in rows[k..] <==> r in table
    ensures rows[k..][0] == rows[k] && rows[k] !in rows[..k]
  {
    assert rows == rows[..k] + rows[k..];
  }

  lemma ScanExplains(p: Params, peak: Bytes32, genesis: Bytes32, table: set<BlockRow>, rows: seq<BlockRow>)
    requires KeyedByHash(table) && IsCursor(rows, table) && 0 <= p.peakHeight
    requires ScanFrom(p, Start(peak, p.peakHeight), rows).Err?
    ensures Explains(p, peak, genesis, table, ScanFrom(p, Start(peak, p.peakHeight), rows).error)
  {
    hide Tracks, Below, Accounts, Explains, Step, ScanFrom, Start, KeyedByHash, IsCursor;
    var st := Start(peak, p.peakHeight);
    StartTracks(p, peak, table, rows);
    StartAtPeak(p, peak);
    var k, last, found := ScanStops(p, peak, [], st, [], rows);
    assert [] + rows[..k] == rows[..k];
    CursorCut(rows, table, k);
    StepExplains(p, peak, genesis, table, rows[..k], last, found, rows[k..]);
  }

  /** A table that is refused has the fault that is reported, and a block is never reported as stored twice. */
  lemma RefusedTable(p: Params, peak: Bytes32, genesis: Bytes32, table: set<BlockRow>, rows: seq<BlockRow>)
    requires KeyedByHash(table) && IsCursor(rows, table)
    requires Verdict(p, peak, genesis, rows).Err?
    ensures Explains(p, peak, genesis, table, Verdict(p, peak, genesis, rows).error)
  {
    if p.peakHeight < 0 {
      return;
    }
    hide Tracks, Below, Accounts, Explains, Step, ScanFrom, Start, KeyedByHash, IsCursor;
    var st := Start(peak, p.peakHeight);
    if ScanFrom(p, st, rows).Err? {
      ScanExplains(p, peak, genesis, table, rows);
    } else {
      StartTracks(p, peak, table, rows);
      StartAtPeak(p, peak);
      var chain := ScanTracks(p, peak, [], st, [], rows);
      assert [] + rows == rows;
      EndExplains(p, peak, genesis, table, rows, ScanFrom(p, st, rows).value, chain);
    }
  }

  lemma EndExplains(p: Params, peak: Bytes32, genesis: Bytes32, table: set<BlockRow>, rows: seq<BlockRow>, st: Scan,
                    chain: seq<BlockRow>)
    requires IsCursor(rows, table) && Tracks(p, peak, rows, st, chain)
    ensures st.currentHeight != 0 ==> Explains(p, peak, genesis, table, MissingBelow(st.currentHeight))
    ensures st.currentHeight == 0 && st.nextHash != Some(genesis) ==>
              Explains(p, peak, genesis, table, WrongGenesis(st.nextHash))
  {
    hide RowDecodes, PrevDecodes, Settled, Covers;
    if st.nextHash.Some? {
      assert Main(p, table, chain[|chain| - 1]);
    }
  }

  // ------------------------------------------------------------ validate_v2

  /** What validate_v2 computes from a database and a cursor over its blocks. */
  ghost function Validation(db: V2Db, rows: seq<BlockRow>, validateBlocks: bool, codec: Codec, genesis: Bytes32)
    : Result<Report, Fault>
  {
    match PeakHeight(db)
    case Err(e) => Err(e)
    case Ok((peak, height)) => Verdict(Params(validateBlocks, codec, height), peak, genesis, rows)
  }

  /** What is wrong with a database that is refused with this fault. */
  ghost predicate Refuses(db: V2Db, validateBlocks: bool, codec: Codec, genesis: Bytes32, fault: Fault) {
    match fault
    case NoVersionTable => db.version == None
    case NoVersion => db.version == Some(None)
    case WrongVersion(found) => db.version == Some(Some(found)) && found != 2
    case NoPeakTable => db.peak == None
    case NoPeak => db.peak == Some(None)
    case NoPeakBlock =>
      db.peak.Some? && db.peak.value.Some? && forall r :: r in db.fullBlocks ==> r.headerHash != db.peak.value.value
    case _ =>
      exists top :: top in db.fullBlocks && db.peak == Some(Some(top.headerHash)) &&
                    Explains(Params(validateBlocks, codec, top.height), top.headerHash, genesis, db.fullBlocks, fault)
  }

  lemma NegativePeak(p: Params, peak: Bytes32, genesis: Bytes32, table: set<BlockRow>, rows: seq<BlockRow>)
    requires p.peakHeight < 0
    ensures Verdict(p, peak, genesis, rows) == Err(NegativePeakHeight)
    ensures Explains(p, peak, genesis, table, NegativePeakHeight)
  {
  }

  /** The faults found before the scan are not found by it. */
  lemma ScanFaults(p: Params, peak: Bytes32, genesis: Bytes32, table: set<BlockRow>, fault: Fault)
    requires Explains(p, peak, genesis, table, fault)
    ensures !fault.NoVersionTable? && !fault.NoVersion? && !fault.WrongVersion?
    ensures !fault.NoPeakTable? && !fault.NoPeak? && !fault.NoPeakBlock?
  {
  }

  /** Accepts exactly the well-formed databases, and otherwise reports a fault that the database has. */
  method ValidateV2(db: V2Db, rows: seq<BlockRow>, validateBlocks: bool, codec: Codec, genesis: Bytes32)
    returns (v: Result<Report, Fault>)
    requires KeyedByHash(db.fullBlocks) && IsCursor(rows, db.fullBlocks)
    ensures v == Validation(db, rows, validateBlocks, codec, genesis)
    ensures v.Ok? <==>
            && db.version == Some(Some(2))
            && db.peak.Some? && db.peak.value.Some?
            && exists top :: top in db.fullBlocks && top.headerHash == db.peak.value.value &&
                             WellFormedChain(Params(validateBlocks, codec, top.height), top.headerHash, genesis,
                                             db.fullBlocks)
    ensures v.Err? ==> Refuses(db, validateBlocks, codec, genesis, v.error)
  {
    hide WellFormedChain, Explains, IsCursor, Verdict;
    if db.version.None? { return Err(NoVersionTable); }
    if db.version.value.None? { return Err(NoVersion); }
    if db.version.value.value != 2 { return Err(WrongVersion(db.version.value.value)); }
    if db.peak.None? { return Err(NoPeakTable); }
    if db.peak.value.None? { return Err(NoPeak); }
    var peak := db.peak.value.value;
    if !exists top :: top in db.fullBlocks && top.headerHash == peak { return Err(NoPeakBlock); }
    var top :| top in db.fullBlocks && top.headerHash == peak;
    var peakHeight := top.height;
    ghost var p := Params(validateBlocks, codec, peakHeight);
    ScanDecidesChain(p, peak, genesis, db.fullBlocks, rows);
    if peakHeight < 0 {
      NegativePeak(p, peak, genesis, db.fullBlocks, rows);
      return Err(NegativePeakHeight);
    }
    v := TraverseChain(rows, peak, peakHeight, validateBlocks, codec, genesis);
    if v.Err? {
      RefusedTable(p, peak, genesis, db.fullBlocks, rows);
      ScanFaults(p, peak, genesis, db.fullBlocks, v.error);
    }
  }

  /** The loop over the cursor and the checks after it. */
  method TraverseChain(rows: seq<BlockRow>, peak: Bytes32, peakHeight: nat, validateBlocks: bool, codec: Codec,
                       genesis: Bytes32)
    returns (v: Result<Report, Fault>)
    ensures v == Verdict(Params(validateBlocks, codec, peakHeight), peak, genesis, rows)
  {
    hide BlobFault, DecodedBlock, SliceAssign;
    var currentHeight: int := peakHeight;
    var expectHash := peak;
    var nextHash: Option<Bytes32> := None;
    var numOrphans: nat := 0;
    var heightToHash: Blob := seq(peakHeight * 32, _ => 0);
    ghost var p := Params(validateBlocks, codec, peakHeight);
    ghost var whole := ScanFrom(p, Start(peak, peakHeight), rows);
    var i := 0;
    while i < |rows|
      invariant 0 <= i <= |rows|
      invariant whole == ScanFrom(p, Scan(currentHeight, expectHash, nextHash, numOrphans, heightToHash), rows[i..])
    {
      var row := rows[i];
      assert rows[i..][0] == row && rows[i..][1..] == rows[i + 1..];
      i := i + 1;
      if row.height > peakHeight { continue; }
      if validateBlocks {
        var fault := BlobFault(codec, row);
        if fault.Some? { return Err(fault.value); }
      }
      if row.height != currentHeight {
        if nextHash.None? { return Err(MissingBlock(expectHash, currentHeight)); }
        expectHash := nextHash.value;
        nextHash := None;
        currentHeight := row.height;
      }
      if row.headerHash == expectHash {
        if nextHash.Some? { return Err(MultipleBlocks(row.headerHash, row.height)); }
        if !row.inMainChain { return Err(MainChainNotSet(row.headerHash, row.height)); }
        if validateBlocks {
          var block := DecodedBlock(codec, row);
          if block.None? || block.value.prevHash != row.prevHash { return Err(BlobPrevMismatch(row.headerHash)); }
        }
        nextHash := Some(row.prevHash);
        heightToHash := SliceAssign(heightToHash, row.height * 32, row.height * 32 + 32, row.headerHash);
      } else {
        if row.inMainChain { return Err(OrphanInMainChain(row.headerHash, row.height)); }
        numOrphans := numOrphans + 1;
      }
    }
    if currentHeight != 0 { return Err(MissingBelow(currentHeight)); }
    if nextHash != Some(genesis) { return Err(WrongGenesis(nextHash)); }
    v := Ok(Report(numOrphans, heightToHash));
  }
}
