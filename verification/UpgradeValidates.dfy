/** The two commands together: what the upgrader writes, the validator accepts. */
module UpgradeValidates {
  import opened Bytes
  import opened ChainValidator
  import opened ChainUpgrade

  /** The version, peak and full_blocks tables that the upgrader writes for a complete ancestry. */
  ghost function UpgradedDb(v1: V1Chain, codec: Codec, peakHash: Hex32, chain: seq<RecordRow>): V2Db {
    V2Db(Some(Some(2)), Some(Some(Unhex(peakHash))), ConvertRows(v1, codec, Elements(chain)))
  }

  /** zstd gives back what it compressed. */
  ghost predicate Lossless(codec: Codec) {
    forall b :: codec.decompress(codec.compress(b)) == Some(b)
  }

  /** That matters only if blocks are decoded. */
  ghost predicate Decodable(codec: Codec, validateBlocks: bool) {
    validateBlocks ==> Lossless(codec)
  }

  /** The v1 blobs of a record decode to the hash, parent, height and total iterations that
      the record's columns and each other claim. */
  ghost predicate BlobsAgree(codec: Codec, r: RecordRow, f: FullBlockRow) {
    && codec.parseBlock(f.block).Some? && codec.parseRecord(r.block).Some?
    && var block := codec.parseBlock(f.block).value;
       var record := codec.parseRecord(r.block).value;
       && block.headerHash == record.headerHash == Unhex(r.headerHash)
       && block.prevHash == record.prevHash == Unhex(r.prevHash)
       && block.height == r.height
       && block.totalIters == record.totalIters
  }

  /** What a v1 chain needs so that its conversion is valid: every ancestor has its full block,
      and height 0 points at the genesis challenge. */
  ghost predicate Convertible(v1: V1Chain, codec: Codec, chain: seq<RecordRow>, validateBlocks: bool,
                              genesis: Bytes32) {
    && |chain| > 0
    && Unhex(chain[|chain| - 1].prevHash) == genesis
    && forall i :: 0 <= i < |chain| ==> HasBlock(v1, codec, chain[i], validateBlocks)
  }

  ghost predicate HasBlock(v1: V1Chain, codec: Codec, r: RecordRow, validateBlocks: bool) {
    exists f :: IsPartner(v1, r, f) && (validateBlocks ==> BlobsAgree(codec, r, f))
  }

  /** A row of the upgraded table comes from exactly one record of the walk. */
  lemma RowSource(v1: V1Chain, codec: Codec, hash: Hex32, height: int, chain: seq<RecordRow>, row: BlockRow)
    returns (i: nat, f: FullBlockRow)
    requires IsWalk(v1.records, hash, height, chain)
    requires row in ConvertRows(v1, codec, Elements(chain))
    ensures i < |chain| && IsPartner(v1, chain[i], f) && row == ConvertRow(codec, chain[i], f)
  {
    var r, f' :| r in Elements(chain) && f' in v1.fullBlocks && r.headerHash == f'.headerHash
      && row == ConvertRow(codec, r, f');
    i :| 0 <= i < |chain| && chain[i] == r;
    f := f';
  }

  /** Equal header hashes in the upgraded table mean the same record. */
  lemma SameHashSameIndex(v1: V1Chain, hash: Hex32, height: int, chain: seq<RecordRow>, i: nat, j: nat)
    requires Keyed(v1) && IsWalk(v1.records, hash, height, chain)
    requires i < |chain| && j < |chain| && Unhex(chain[i].headerHash) == Unhex(chain[j].headerHash)
    ensures i == j
  {
    UnhexInjective(chain[i].headerHash, chain[j].headerHash);
    assert chain[i] in v1.records && chain[j] in v1.records;
  }

  /** No INSERT of the walk can violate the primary key of full_blocks. */
  lemma UpgradedKeyed(v1: V1Chain, codec: Codec, hash: Hex32, height: int, chain: seq<RecordRow>)
    requires Keyed(v1) && IsWalk(v1.records, hash, height, chain)
    ensures KeyedByHash(ConvertRows(v1, codec, Elements(chain)))
  {
    var table := ConvertRows(v1, codec, Elements(chain));
    forall a, b | a in table && b in table && a.headerHash == b.headerHash
      ensures a == b
    {
      var i, f := RowSource(v1, codec, hash, height, chain, a);
      var j, g := RowSource(v1, codec, hash, height, chain, b);
      SameHashSameIndex(v1, hash, height, chain, i, j);
    }
  }

  /** With every full block present, the converted rows form the main chain of the new table. */
  lemma ConvertedChain(v1: V1Chain, codec: Codec, hash: Hex32, height: int, chain: seq<RecordRow>, validateBlocks: bool,
                       genesis: Bytes32)
    returns (main: seq<BlockRow>)
    requires Keyed(v1) && Decodable(codec, validateBlocks) && IsWalk(v1.records, hash, height, chain)
             && |chain| == height + 1
    requires Convertible(v1, codec, chain, validateBlocks, genesis)
    ensures |main| == |chain| && forall r :: r in main <==> r in ConvertRows(v1, codec, Elements(chain))
    ensures IsMainChain(Params(validateBlocks, codec, height), Unhex(hash), genesis,
                        ConvertRows(v1, codec, Elements(chain)), main)
  {
    var p := Params(validateBlocks, codec, height);
    main := ConvertEach(v1, codec, chain, p, genesis);
    hide Unhex, Keyed, Decodable, RowDecodes, PrevDecodes, Convertible, Converts, IsWalk, ConvertRows, Covers, Settled;
    ConvertedMembers(v1, codec, hash, height, chain, main);
    MainCovers(v1, codec, hash, height, chain, main);
    ConvertibleGenesis(v1, codec, chain, validateBlocks, genesis);
    EachDecodes(p, main);
  }

  lemma EachDecodes(p: Params, main: seq<BlockRow>)
    requires forall i :: 0 <= i < |main| ==> RowDecodes(p, main[i])
    ensures forall r :: r in main ==> RowDecodes(p, r)
  {
    hide RowDecodes;
    forall r | r in main
      ensures RowDecodes(p, r)
    {
      var i :| 0 <= i < |main| && main[i] == r;
    }
  }

  lemma ConvertibleGenesis(v1: V1Chain, codec: Codec, chain: seq<RecordRow>, validateBlocks: bool, genesis: Bytes32)
    requires Convertible(v1, codec, chain, validateBlocks, genesis)
    ensures |chain| > 0 && Unhex(chain[|chain| - 1].prevHash) == genesis
  {
  }

  lemma ConvertEach(v1: V1Chain, codec: Codec, chain: seq<RecordRow>, p: Params, genesis: Bytes32)
    returns (main: seq<BlockRow>)
    requires Decodable(codec, p.validateBlocks) && p.codec == codec
    requires Convertible(v1, codec, chain, p.validateBlocks, genesis)
    ensures |main| == |chain| && forall i :: 0 <= i < |chain| ==> Converts(v1, codec, chain[i], main[i])
    ensures forall i :: 0 <= i < |chain| ==> RowDecodes(p, main[i]) && PrevDecodes(p, main[i])
  {
    hide Unhex, RowDecodes, PrevDecodes, BlobsAgree, Decodable;
    main := [];
    for k := 0 to |chain|
      invariant |main| == k
      invariant forall i :: 0 <= i < k ==> Converts(v1, codec, chain[i], main[i])
      invariant forall i :: 0 <= i < k ==> RowDecodes(p, main[i]) && PrevDecodes(p, main[i])
    {
      assert HasBlock(v1, codec, chain[k], p.validateBlocks);
      var f :| IsPartner(v1, chain[k], f) && (p.validateBlocks ==> BlobsAgree(codec, chain[k], f));
      main := main + [ConvertRow(codec, chain[k], f)];
      DecodesAfterConversion(p, chain[k], f);
    }
  }

  ghost predicate Converts(v1: V1Chain, codec: Codec, r: RecordRow, row: BlockRow) {
    exists f :: IsPartner(v1, r, f) && row == ConvertRow(codec, r, f)
  }

  lemma DecodesAfterConversion(p: Params, r: RecordRow, f: FullBlockRow)
    requires Decodable(p.codec, p.validateBlocks) && (p.validateBlocks ==> BlobsAgree(p.codec, r, f))
    ensures RowDecodes(p, ConvertRow(p.codec, r, f)) && PrevDecodes(p, ConvertRow(p.codec, r, f))
  {
    assert p.validateBlocks ==> p.codec.decompress(p.codec.compress(f.block)) == Some(f.block);
  }

  lemma ConvertedMembers(v1: V1Chain, codec: Codec, hash: Hex32, height: int, chain: seq<RecordRow>,
                         main: seq<BlockRow>)
    requires Keyed(v1) && IsWalk(v1.records, hash, height, chain)
    requires |main| == |chain| && forall i :: 0 <= i < |chain| ==> Converts(v1, codec, chain[i], main[i])
    ensures forall r :: r in main <==> r in ConvertRows(v1, codec, Elements(chain))
  {
    hide Unhex;
    forall r | r in main
      ensures r in ConvertRows(v1, codec, Elements(chain))
    {
      var i :| 0 <= i < |main| && main[i] == r;
      assert chain[i] in Elements(chain);
    }
    forall r | r in ConvertRows(v1, codec, Elements(chain))
      ensures r in main
    {
      var i, f := RowSource(v1, codec, hash, height, chain, r);
      assert Converts(v1, codec, chain[i], main[i]);
    }
  }

  lemma MainCovers(v1: V1Chain, codec: Codec, hash: Hex32, height: int, chain: seq<RecordRow>, main: seq<BlockRow>)
    requires IsWalk(v1.records, hash, height, chain)
    requires |main| == |chain| && forall i :: 0 <= i < |chain| ==> Converts(v1, codec, chain[i], main[i])
    ensures forall i :: 0 <= i < |main| ==> main[i].height == height - i && main[i].inMainChain
    ensures |main| > 0 ==> main[0].headerHash == Unhex(hash)
    ensures |main| > 0 ==> main[|main| - 1].prevHash == Unhex(chain[|chain| - 1].prevHash)
    ensures forall i :: 0 < i < |main| ==> main[i - 1].prevHash == main[i].headerHash
    ensures forall r :: r in main ==> Covers(main, r.height) && Settled(main, r)
  {
    hide Unhex;
    forall i | 0 <= i < |main|
      ensures main[i].height == height - i && main[i].inMainChain
      ensures main[i].headerHash == Unhex(chain[i].headerHash) && main[i].prevHash == Unhex(chain[i].prevHash)
    {
      assert Converts(v1, codec, chain[i], main[i]);
    }
    forall r | r in main
      ensures Covers(main, r.height) && Settled(main, r)
    {
      var i :| 0 <= i < |main| && main[i] == r;
    }
  }

  /** Conversely, a main chain of the new table retraces the whole ancestry. */
  lemma {:induction false} MainRetraces(v1: V1Chain, codec: Codec, hash: Hex32, height: int, chain: seq<RecordRow>,
                                        p: Params, genesis: Bytes32, main: seq<BlockRow>)
    requires Keyed(v1) && IsWalk(v1.records, hash, height, chain) && |chain| == height + 1 && p.peakHeight == height
    requires IsMainChain(p, Unhex(hash), genesis, ConvertRows(v1, codec, Elements(chain)), main)
    ensures |main| == |chain| && forall i :: 0 <= i < |chain| ==> Converts(v1, codec, chain[i], main[i])
  {
    hide Unhex, RowDecodes, PrevDecodes, Covers, Settled;
    for k := 0 to |main|
      invariant k <= |chain|
      invariant forall i :: 0 <= i < k ==> Converts(v1, codec, chain[i], main[i]) && main[i].height == height - i
      invariant k > 0 ==> main[k - 1].prevHash == Unhex(chain[k - 1].prevHash)
    {
      if k > 0 {
        assert main[k - 1].height > main[k].height >= main[|main| - 1].height;
      }
      var j, f := RowSource(v1, codec, hash, height, chain, main[k]);
      SameHashSameIndex(v1, hash, height, chain, k, j);
    }
  }

  lemma ConvertsGivesPartner(v1: V1Chain, codec: Codec, p: Params, r: RecordRow, row: BlockRow)
    returns (f: FullBlockRow)
    requires Decodable(codec, p.validateBlocks) && p.codec == codec && Converts(v1, codec, r, row)
    requires RowDecodes(p, row) && PrevDecodes(p, row)
    ensures IsPartner(v1, r, f) && (p.validateBlocks ==> BlobsAgree(codec, r, f)) && row.prevHash == Unhex(r.prevHash)
  {
    f :| IsPartner(v1, r, f) && row == ConvertRow(codec, r, f);
    assert p.validateBlocks ==> codec.decompress(codec.compress(f.block)) == Some(f.block);
  }

  /** Upgrade then validate: the validator accepts what the upgrader wrote exactly when every
      ancestor of the v1 peak has its full block and height 0 points at the genesis challenge
      (and, when blocks are decoded, the v1 blobs agree with their columns); it then counts no orphan. */
  lemma {:induction false} UpgradeThenValidate(v1: V1Chain, codec: Codec, hash: Hex32, height: int,
                                               chain: seq<RecordRow>,
                            rows: seq<BlockRow>, validateBlocks: bool, genesis: Bytes32)
    requires Keyed(v1) && Decodable(codec, validateBlocks)
    requires Ancestry(v1.records, hash, height) == Ok(chain)
    requires IsCursor(rows, UpgradedDb(v1, codec, hash, chain).fullBlocks)
    ensures KeyedByHash(UpgradedDb(v1, codec, hash, chain).fullBlocks)
    ensures var v := Validation(UpgradedDb(v1, codec, hash, chain), rows, validateBlocks, codec, genesis);
            && (v.Ok? <==> Convertible(v1, codec, chain, validateBlocks, genesis))
            && (v.Ok? ==> v.value.numOrphans == 0)
  {
    AncestryIsWalk(v1.records, hash, height);
    UpgradedKeyed(v1, codec, hash, height, chain);
    var p := Params(validateBlocks, codec, height);
    PeakOfUpgraded(v1, codec, hash, height, chain);
    if height >= 0 {
      ScanDecidesChain(p, Unhex(hash), genesis, UpgradedDb(v1, codec, hash, chain).fullBlocks, rows);
      if Convertible(v1, codec, chain, validateBlocks, genesis) {
        ConvertibleIsValid(v1, codec, hash, height, chain, rows, validateBlocks, genesis);
      } else if Validation(UpgradedDb(v1, codec, hash, chain), rows, validateBlocks, codec, genesis).Ok? {
        ValidIsConvertible(v1, codec, hash, height, chain, rows, validateBlocks, genesis);
      }
    }
  }

  /** The peak block is found in the new table, at its own height, if its full block was there. */
  lemma PeakOfUpgraded(v1: V1Chain, codec: Codec, hash: Hex32, height: int, chain: seq<RecordRow>)
    requires Keyed(v1) && IsWalk(v1.records, hash, height, chain)
    requires |chain| == if height < 0 then 0 else height + 1
    ensures var peak := PeakHeight(UpgradedDb(v1, codec, hash, chain));
            if |chain| > 0 && exists f :: IsPartner(v1, chain[0], f) then peak == Ok((Unhex(hash), height))
            else peak == Err(NoPeakBlock)
  {
    hide Unhex;
    var db := UpgradedDb(v1, codec, hash, chain);
    forall row | row in db.fullBlocks && row.headerHash == Unhex(hash)
      ensures |chain| > 0 && row.height == height && exists f :: IsPartner(v1, chain[0], f)
    {
      var i, f := RowSource(v1, codec, hash, height, chain, row);
      SameHashSameIndex(v1, hash, height, chain, i, 0);
    }
    if |chain| > 0 && exists f :: IsPartner(v1, chain[0], f) {
      var f :| IsPartner(v1, chain[0], f);
      assert chain[0] in Elements(chain);
      assert ConvertRow(codec, chain[0], f) in db.fullBlocks;
    }
  }

  lemma ConvertibleIsValid(v1: V1Chain, codec: Codec, hash: Hex32, height: int, chain: seq<RecordRow>,
                           rows: seq<BlockRow>, validateBlocks: bool, genesis: Bytes32)
    requires Keyed(v1) && Decodable(codec, validateBlocks) && IsWalk(v1.records, hash, height, chain)
             && |chain| == height + 1
    requires IsCursor(rows, UpgradedDb(v1, codec, hash, chain).fullBlocks)
    requires KeyedByHash(UpgradedDb(v1, codec, hash, chain).fullBlocks)
    requires Convertible(v1, codec, chain, validateBlocks, genesis)
    ensures var v := Verdict(Params(validateBlocks, codec, height), Unhex(hash), genesis, rows);
            v.Ok? && v.value.numOrphans == 0
  {
    var p := Params(validateBlocks, codec, height);
    var table := UpgradedDb(v1, codec, hash, chain).fullBlocks;
    var main := ConvertedChain(v1, codec, hash, height, chain, validateBlocks, genesis);
    ScanDecidesChain(p, Unhex(hash), genesis, table, rows);
    var walked := AcceptedChain(p, Unhex(hash), genesis, table, rows);
    ChainUnique(p, Unhex(hash), genesis, table, main, walked);
    RelevantIsSize(p, rows);
    NoOrphans(p, main, rows, height);
  }

  lemma NoOrphans(p: Params, main: seq<BlockRow>, rows: seq<BlockRow>, height: int)
    requires p.peakHeight == height
    requires forall r :: r in main <==> r in rows
    requires forall i, j :: 0 <= i < j < |main| ==> main[i].height > main[j].height
    requires |main| > 0 ==> main[0].height == height
    ensures |set r | r in rows && r.height <= p.peakHeight| == |main|
  {
    assert (set r | r in rows && r.height <= p.peakHeight) == set r | r in main by {
      forall r | r in main
        ensures r.height <= height
      {
        var i :| 0 <= i < |main| && main[i] == r;
      }
    }
    SizeOfDistinct(main);
  }

  lemma {:induction false} SizeOfDistinct(s: seq<BlockRow>)
    requires forall i, j :: 0 <= i < j < |s| ==> s[i].height > s[j].height
    ensures |set r | r in s| == |s|
    decreases |s|
  {
    if s != [] {
      var n := |s| - 1;
      SizeOfDistinct(s[..n]);
      LastIsNew(s[..n], s[n]);
      assert s == s[..n] + [s[n]];
    }
  }

  lemma LastIsNew(init: seq<BlockRow>, last: BlockRow)
    requires last !in init
    ensures |set r | r in init + [last]| == |set r | r in init| + 1
  {
    assert (set r | r in init + [last]) == (set r | r in init) + {last};
  }

  lemma ValidIsConvertible(v1: V1Chain, codec: Codec, hash: Hex32, height: int, chain: seq<RecordRow>,
                           rows: seq<BlockRow>, validateBlocks: bool, genesis: Bytes32)
    requires Keyed(v1) && Decodable(codec, validateBlocks) && IsWalk(v1.records, hash, height, chain)
             && |chain| == height + 1
    requires IsCursor(rows, UpgradedDb(v1, codec, hash, chain).fullBlocks)
    requires KeyedByHash(UpgradedDb(v1, codec, hash, chain).fullBlocks)
    requires Verdict(Params(validateBlocks, codec, height), Unhex(hash), genesis, rows).Ok?
    ensures Convertible(v1, codec, chain, validateBlocks, genesis)
  {
    hide Unhex, Decodable, IsMainChain, ConvertRows, Verdict, Convertible, Indexes, Relevant;
    var p := Params(validateBlocks, codec, height);
    var table := UpgradedDb(v1, codec, hash, chain).fullBlocks;
    var main := AcceptedChain(p, Unhex(hash), genesis, table, rows);
    MainRetraces(v1, codec, hash, height, chain, p, genesis, main);
    RetracedIsConvertible(v1, codec, chain, p, Unhex(hash), genesis, table, main);
  }

  lemma RetracedIsConvertible(v1: V1Chain, codec: Codec, chain: seq<RecordRow>, p: Params, peak: Bytes32,
                              genesis: Bytes32,
                              table: set<BlockRow>, main: seq<BlockRow>)
    requires Decodable(codec, p.validateBlocks) && p.codec == codec && IsMainChain(p, peak, genesis, table, main)
    requires |main| == |chain| && forall i :: 0 <= i < |chain| ==> Converts(v1, codec, chain[i], main[i])
    ensures Convertible(v1, codec, chain, p.validateBlocks, genesis)
  {
    hide Unhex, Decodable, RowDecodes, PrevDecodes, Converts, BlobsAgree, Covers, Settled;
    forall i | 0 <= i < |chain|
      ensures HasBlock(v1, codec, chain[i], p.validateBlocks) && main[i].prevHash == Unhex(chain[i].prevHash)
    {
      assert main[i].height <= p.peakHeight && main[i] in table;
      var f := ConvertsGivesPartner(v1, codec, p, chain[i], main[i]);
    }
    assert main[|main| - 1].prevHash == Unhex(chain[|chain| - 1].prevHash);
  }
}
