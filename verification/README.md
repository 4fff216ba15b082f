# Verification of chia-blockchain tools

Dafny models of parts of chia-blockchain whose correctness is not evident from any one function, with proofs of
what they promise. `dafny verify dfyconfig.toml` checks everything.

- **Database validator and upgrader.** `ChainValidator` models the one-pass validation of the v2 block table,
  `ChainUpgrade` the batched walk that converts v1 blocks, `UpgradeValidates` relates the two, `HintPaging` and
  `CoinRewind` model the hint pages and the rewound coin table, and `Upgrade` puts the conversion together. Tables
  are sets or maps of records; SQL statements are operations on them. The compression codec and block decoding are
  function parameters.
- **Chialisp formatter.** `AsciiText`, `Chialisp` and `ChialispFormat` define the formatter as a pure function on
  trimmed lines and prove its fixpoint, `ChialispProperties` its content and stack properties, `ChialispLayout` at
  which column each line is written, `ChialispStability` when one pass is enough, and `ChialispFormatter` is the
  class with its mutable fields, proved to compute that function.
- **Key derivation and search.** `HdPath` models the path parser and derivation over abstract keys with the one-step
  homomorphism as a hypothesis; `KeySearch`, `KeySearchRun` and `KeySearchPaths` model the nested search, and
  `KeySearchMeaning` says what it finds from the derived keys alone. The path layout m/12381/8444/... is that of the
  Path section of EIP-2334.
- **Smaller tools.** `ClvmCache` (the compile cache of manage_clvm), `ConfigMerge` (the migration of config.yaml),
  `MemoryProfile` and `MemoryProfileRun` (the call graph of memory snapshots), `WalletCheck` (the wallet database
  checks), `RpcPipeline` (the bounded request pipeline) and `Rewards` (block rewards and reward coins).

Where a natural property does not hold of the code, the code is modelled as it is, and lemmas exhibit an input and
state when the property does hold:

- a table without rows at some height can be accepted (`GapIsAccepted`, `AcceptedContiguous`);
- hint pages are read without ORDER BY (`UnorderedPaging`);
- a peak at height 0 makes the progress line of the upgrader divide by zero (`ConvertFullBlocks`);
- one pass of the formatter need not be stable (`OnePassMayNotBeStable`); `StableIff` says exactly when it is,
  and two passes always are (`TwoPassesAreStable`);
- the argument after a form `(if)` can take over the column of the `if` form around it (`LaterArgumentRules`,
  `IfEntry`);
- the text returned for the root path is refused by the parser (`PathTextReparses`, `RootedPathDerives`);
- a cache entry does not cover include files (`ChangedIncludeIsMissed`, `ChangedIncludesMatter`); with these fixed
  the cache is exact (`CheckRepeatedly`);
- the two reward coins of a block can be one coin (`CoinsCoincide`, `CoinsDistinct`);
- a mark that the defaults do not reach is without effect (`UnreachedMarkSurvives`, `MergeRules`);
- the gap check accepts any single element for a range of one (`SingletonIsNotCompared`, `GapVerdict`), which is
  harmless where the maximum of the list is passed as the end of the range (`CompactVerdict`);
- the request pipeline never looks at the result of a request that completes while it waits for room
  (`FailuresNoticed`), and negative heights are looked up from the back (`LookupMeaning`).

Rewinding a v1 coin table equals replaying the blocks up to the peak (`RewindEqualsReplay`). The v2 coin store also
writes a marker, spent_index -1, that the rewind would not restore; it refuses every other schema
(chia/full_node/coin_store.py:78-79), so no v1 table has it, and `RewindWithMarkers` only says how far the law goes
beyond the tables the upgrader gets.

The docstring of the gap check says that every value of the range must be present and no more; the code exempts the
single element, and the model follows the code.

## Model

| member | source | states |
|---|---|---|
| Bytes.SliceAssign | chia/cmds/db_validate_func.py:164 | slice assignment on a bytearray: inside the buffer it overwrites in place, at the end it appends |
| Bytes.SlotFrame | chia/cmds/db_validate_func.py:164 | writing one 32-byte slot changes that slot and no other |
| Bytes.AppendSlotFrame | chia/cmds/db_validate_func.py:86-164 | the first write, at the end of a buffer of 32 * peak bytes, adds a slot and keeps the others |
| Bytes.HexUnhex | chia/cmds/db_upgrade_func.py:214-215 | hexadecimal text survives decoding and encoding |
| Bytes.UnhexHex | chia/cmds/db_upgrade_func.py:214-215 | bytes survive encoding and decoding |
| Bytes.UnhexInjective | chia/cmds/db_upgrade_func.py:214-215 | unhex maps different texts to different bytes |
| Bytes.HexNumerals | chia/cmds/db_upgrade_func.py:214-215 | each byte is written as two numerals, the high one first |
| ChainValidator.ValidateV2 | chia/cmds/db_validate_func.py:34-190 | the whole validation: accepts iff the version is 2, a peak is recorded and present, and the table is well formed below it, where with validate_blocks every row, orphan or not, must decode to what its columns say; and a refused database has the fault that is reported |
| ChainValidator.BlobFault | chia/cmds/db_validate_func.py:106-133 | silent iff block and record can be read, both name the hash of the row, they agree on total iterations and parent, and the block is of the height of the row; otherwise the fault reported is one of the row |
| ChainValidator.PrevMatches | chia/cmds/db_validate_func.py:155-160 | holds iff the block of the row can be read and names the parent of the row |
| ChainValidator.RefusedTable | chia/cmds/db_validate_func.py:106-187 | every fault that ends a scan is one of the table: an expected hash missing at its height, an expected row not marked, a marked row beside an expected one, a wrong parent, a lowest height above 0, or another genesis; a block is never reported as stored twice |
| ChainValidator.TraverseChain | chia/cmds/db_validate_func.py:78-187 | the cursor loop and the checks after it compute the verdict of the scan |
| ChainValidator.ScanDecidesChain | chia/cmds/db_validate_func.py:78-187 | the one-pass scan accepts iff every height present at or below the peak has exactly one main-chain row, the top one is the peak, present levels are linked by prev_hash, the lowest is 0 and links to the genesis challenge; equivalently iff a main chain exists |
| ChainValidator.AcceptedChain | chia/cmds/db_validate_func.py:85-187 | on acceptance, orphans plus main-chain rows are all rows at or below the peak, and the buffer has length 32 * (peak + 1) and gives each main-chain hash back by height |
| ChainValidator.ChainIsWellFormed | chia/cmds/db_validate_func.py:135-187 | a chain of main-chain rows down to the genesis challenge makes the table well formed |
| ChainValidator.WellFormedIsAccepted | chia/cmds/db_validate_func.py:78-187 | a well-formed table is never refused |
| ChainValidator.ChainUnique | chia/cmds/db_validate_func.py:146-164 | a table has at most one main chain |
| ChainValidator.RelevantIsSize | chia/cmds/db_validate_func.py:103-104 | the rows counted are the set of rows at or below the peak |
| ChainValidator.IndexUnique | chia/cmds/db_validate_func.py:86-164 | the chain determines the buffer |
| ChainValidator.VerdictIgnoresTies | chia/cmds/db_validate_func.py:88-95 | verdict, orphan count and buffer do not depend on how the cursor orders rows of equal height |
| ChainValidator.AcceptedContiguous | chia/cmds/db_validate_func.py:135-144 | an accepted table has a row at every height iff every main-chain parent lies exactly one height lower |
| ChainValidator.GapIsAccepted | chia/cmds/db_validate_func.py:135-144 | a concrete table with nothing at height 1 that is accepted |
| ChainUpgrade.SelectRecord | chia/cmds/db_upgrade_func.py:197-206 | the query returns the record with that hash and height, or nothing |
| ChainUpgrade.InsertBlocks | chia/cmds/db_upgrade_func.py:210-226 | the INSERT adds the joined rows of the selected records, marked in_main_chain |
| ChainUpgrade.PickedByRowid | chia/cmds/db_upgrade_func.py:223-225 | selecting by rowid picks exactly the records of the batch |
| ChainUpgrade.ConvertFullBlocks | chia/cmds/db_upgrade_func.py:183-240 | for every parameter limit: with a complete ancestry exactly the ancestors of the peak are written, each once and column by column as in its record and full block; with a missing link it raises naming the link that the walk reached and that has no record, and exactly the whole batches above it were written; a peak at height 0 ends in a division by zero; fewer than BATCH_SIZE + limit records ever wait for a commit |
| ChainUpgrade.ConvertRowsWritten | chia/cmds/db_upgrade_func.py:210-226 | the new table has a row for every walked record with a full block and no others; its hashes are those of the record in hexadecimal, height, sub_epoch_summary and block_record come from the record, is_fully_compactified and the compressed block from the full block |
| ChainUpgrade.AncestryIsWalk | chia/cmds/db_upgrade_func.py:193-209 | a complete ancestry is a walk of peak height + 1 records linked by prev_hash |
| UpgradeValidates.UpgradedKeyed | chia/cmds/db_upgrade_func.py:169-180 | no INSERT of the walk can violate the primary key |
| UpgradeValidates.ConvertedChain | chia/cmds/db_upgrade_func.py:210-226 | with every full block present, the converted rows form the main chain of the new table |
| UpgradeValidates.MainRetraces | chia/cmds/db_upgrade_func.py:210-226 | conversely a main chain of the new table retraces the whole ancestry |
| UpgradeValidates.PeakOfUpgraded | chia/cmds/db_upgrade_func.py:158-164 | the recorded peak is found in the new table at its own height |
| UpgradeValidates.UpgradeThenValidate | chia/cmds/db_upgrade_func.py:153-240 | the validator accepts what the upgrader wrote iff every ancestor has its full block (matching its record, when blocks are decoded) and the last one links to the genesis challenge; and then there are no orphans |
| HintPaging.SelectPage | chia/cmds/db_upgrade_func.py:320-323 | the page of the smallest ids from range_start on |
| HintPaging.PageCoversWindow | chia/cmds/db_upgrade_func.py:320-344 | a page holds every id of the window that is stepped over |
| HintPaging.ConvertHints | chia/cmds/db_upgrade_func.py:318-344 | however sparse the ids, paging terminates and copies exactly the distinct pairs with an id of at least 1 |
| HintPaging.UnorderedPaging | chia/cmds/db_upgrade_func.py:320-344 | without an order in the query, nothing is lost whatever page the database returns iff all hints fit in one page |
| CoinRewind.BlockOnCoin | chia/full_node/coin_store.py:158-215 | what applying one block does to one coin: created, marked, spent, or left alone |
| CoinRewind.StoreRunReplays | chia/full_node/coin_store.py:158-215 | a run that the coin store accepts is a run of blocks in which each coin is created once and spent at most once, not before it exists |
| CoinRewind.ReplayBounded | chia/full_node/coin_store.py:158-215 | indexes in the coin table never exceed the height of the last block |
| CoinRewind.SpentAbove | chia/full_node/coin_store.py:716-737 | a spent index is above the peak iff a block above the peak removed the coin |
| CoinRewind.MarkOrigin | chia/full_node/coin_store.py:158-215 | a coin carries the marker -1 iff a block set it and no block removed the coin |
| CoinRewind.RemovedTwice | chia/full_node/coin_store.py:716-737 | an accepted run never removes a coin twice |
| CoinRewind.RewindIsReplay | chia/cmds/db_upgrade_func.py:380-397 | coin by coin, what rewinding the table of a run leaves of each coin of the run up to the peak |
| CoinRewind.RewindEqualsReplay | chia/cmds/db_upgrade_func.py:380-397 | rewinding the coin table of any run of blocks to the peak gives exactly the table of the run up to the peak |
| CoinRewind.RewindWithMarkers | chia/full_node/coin_store.py:158-215 | the same law for tables with the marker -1 of the v2 store: it holds iff no coin marked at or below the peak is removed above it |
| Upgrade.StageCoins | chia/cmds/db_upgrade_func.py:380-397 | the temporary table holds each coin confirmed by the peak once, decoded and with later spends cleared |
| Upgrade.ConvertCoins | chia/cmds/db_upgrade_func.py:380-410 | the batched copy writes exactly the coins confirmed by the peak, never meets a duplicate key, and every column comes from its column of the v1 row: name, parent and puzzle hash are its hexadecimal texts, amount, coinbase, timestamp and confirmed index are the same, and a spend above the peak is cleared |
| Upgrade.ConvertedUnique | chia/cmds/db_upgrade_func.py:380-397 | these column rules determine the new table |
| Upgrade.ConvertedCoinsReplay | chia/cmds/db_upgrade_func.py:380-410 | if the v1 coin table is the hexadecimal form of the outcome of a run, the converted table is the outcome of the run up to the peak |
| Upgrade.ConvertV1ToV2 | chia/cmds/db_upgrade_func.py:127-410 | success writes the ancestry, the hints and the rewound coins, and the validator accepts them iff the ancestry is convertible; every failure has its cause |
| AsciiText.TrimEnd | tools/chialispp.py:33-45 | what is cut off is white space, and nothing more could be |
| AsciiText.TrimStart | tools/chialispp.py:16-29 | the same at the front |
| AsciiText.TrimIsTrimmed | tools/chialispp.py:102-103 | a trimmed line has no white space at either end |
| AsciiText.TrimPadded | tools/chialispp.py:102-103 | trimming removes exactly added white space |
| ChialispFormatter.TrimAsciiEnd | tools/chialispp.py:33-45 | the loop computes the trim, or raises on a byte outside ASCII |
| ChialispFormatter.TrimAsciiStart | tools/chialispp.py:16-29 | the loop computes the trim, or raises if the first byte that is not white space is outside ASCII |
| Chialisp.CodeEndsOutside | tools/chialispp.py:141-190 | the code of a commented line ends outside every string literal |
| Chialisp.LiteralIsSkipped | tools/chialispp.py:141-156 | a string literal with its escapes is passed as a whole: no comment or code in it, and code goes on after it |
| Chialisp.PlainIsCode | tools/chialispp.py:141-190 | text without quote marks and semicolons is code |
| Chialisp.LineParts | tools/chialispp.py:152-195 | a trimmed line is its code, white space, and its comment with its semicolons |
| Chialisp.NormalIdempotent | tools/chialispp.py:204-215 | writing comments two spaces after the code is idempotent |
| ChialispFormatter.Formatter.constructor | tools/chialispp.py:49-70 | the initial state |
| ChialispFormatter.Formatter.RunChar | tools/chialispp.py:73-77 | characters collect into a line, a newline ends it |
| ChialispFormatter.Formatter.FinishLine | tools/chialispp.py:239-242 | the line joins the lines and a new one begins |
| ChialispFormatter.Formatter.OutputChar | tools/chialispp.py:80-88 | a character extends the output line, a newline files it |
| ChialispFormatter.Formatter.Indent | tools/chialispp.py:302-304 | pads to the column, or not at all |
| ChialispFormatter.Formatter.GetCurIndent | tools/chialispp.py:306-310 | the top of the indent stack, or 0 |
| ChialispFormatter.Formatter.ResetIndent | tools/chialispp.py:312-314 | replaces the top, if there is one |
| ChialispFormatter.Formatter.IndentParen | tools/chialispp.py:316-318 | pushes the top plus two |
| ChialispFormatter.Formatter.RetireIndent | tools/chialispp.py:320-322 | pops, if there is something |
| ChialispFormatter.Formatter.TrackFormName | tools/chialispp.py:118-127 | the form-name states move as the specification says |
| ChialispFormatter.Formatter.CodeChar | tools/chialispp.py:157-181 | a character of code changes level, stack and indentation as the specification says |
| ChialispFormatter.Formatter.ScanLine | tools/chialispp.py:106-195 | the main loop ends in the state of the specification, with code, semicolons and comment cut apart at the first semicolon outside a string |
| ChialispFormatter.Formatter.WriteLine | tools/chialispp.py:197-227 | writes indentation, code, two spaces if both are there, semicolons and comment |
| ChialispFormatter.Formatter.ClampStack | tools/chialispp.py:229-232 | no stack entry above the next one exceeds it |
| ChialispFormatter.Formatter.OutputLine | tools/chialispp.py:91-232 | one line of output per line of input, depending only on the carried state and the trimmed line |
| ChialispFormatter.Formatter.Finish | tools/chialispp.py:244-282 | formats all lines in order, or raises iff one is not ASCII |
| ChialispFormatter.FormatFile | tools/chialispp.py:337-348 | reading, formatting and joining a file is the pure function Format, defined on the trimmed lines |
| ChialispFormat.SplitJoin | tools/chialispp.py:343-348 | splitting the written file gives back its lines |
| ChialispFormat.JoinSplit | tools/chialispp.py:343-348 | joining the lines of a file gives it back, with a newline at its end, and no line holds a newline |
| ChialispFormat.OnePass | tools/chialispp.py:343-348 | the output is ASCII and its trimmed lines are the comment normal forms of the input lines |
| ChialispFormat.TwoPassesAreStable | tools/chialispp.py:91-348 | for every ASCII file a third pass changes nothing |
| ChialispFormat.NormalIsStable | tools/chialispp.py:204-227 | one pass is stable if every line has no code before its comment or exactly two spaces there |
| ChialispProperties.FormatKeepsContent | tools/chialispp.py:91-227 | as many lines as before, each the input line re-indented: code byte for byte, semicolons and comment kept, exactly two spaces between them |
| ChialispProperties.ReindentedIff | tools/chialispp.py:91-227 | a line is the re-indented input line iff it is what the formatter writes for it at some column |
| ChialispProperties.StackDepth | tools/chialispp.py:157-178 | after any lines the indent stack is as deep as the open parentheses, which is paren_level minus the lowest level so far, at most 0 |
| ChialispStability.StableIff | tools/chialispp.py:118-232 | one pass is stable iff every moved comment that jolts the indentation is followed, blank lines aside, by nothing or by a line that closes the innermost parenthesis; it jolts iff at the end of the code the rule for `if` is armed with an entry to set, sets it to another column than two spaces after the code, and the entry survives the end of the line |
| ChialispStability.JoltChangesStack | tools/chialispp.py:118-232 | line by line: moving the comment never changes the column of its own line, and changes the carried indent stack iff it jolts |
| ChialispStability.TailRun | tools/chialispp.py:118-190 | white space and a comment settle the form, and set the innermost indentation only if the rule for `if` is armed |
| ChialispStability.LineBounded | tools/chialispp.py:161-181 | no entry of the indent stack is ever negative |
| ChialispStability.CalmIsStable | tools/chialispp.py:118-232 | one pass is stable if no comment jolts |
| ChialispStability.OnePassMayNotBeStable | tools/chialispp.py:118-139 | there is an ASCII file of two lines that the second pass changes again |
| ChialispLayout.FileLayout | tools/chialispp.py:91-232 | every line of a formatted file is written at the column that the rules below determine from the text |
| ChialispLayout.StackLaw | tools/chialispp.py:118-181 | the indent stack at every point of a line: the entry of a form opened on the line is where the rule for `if` last applied directly inside it, or else the entry below plus two; entries of earlier lines are unchanged, except the topmost if the rule applied at it |
| ChialispLayout.ColumnLaw | tools/chialispp.py:168-178 | the column moves only where a parenthesis is closed at or below the level at which the line started, and as far as the innermost entry does |
| ChialispLayout.NameLaw | tools/chialispp.py:118-139 | the rule for `if` applies at the first character of the first argument after the name, parenthesis or not, read from the text since the last opening parenthesis |
| ChialispLayout.ClampLaw | tools/chialispp.py:229-232 | of the forms left open on a line, all but the first are carried with the entry of the second |
| ChialispLayout.ClosesNothing | tools/chialispp.py:91-232 | a line that closes no form of an earlier line is written at the innermost entry |
| ChialispLayout.ClosesFirst | tools/chialispp.py:168-178 | a line that first closes forms of earlier lines is written at the entry that is then the innermost |
| ChialispLayout.IfEntry | tools/chialispp.py:133-181 | the entry of an `if` form open at the end of its line is the index, in the line as written, of the first character of its first argument, iff no later argument takes the entry over |
| ChialispLayout.SettledInside | tools/chialispp.py:168-178 | inside a form nothing moves the line, unless two forms of earlier lines were closed before it |
| ChialispLayout.OtherEntry | tools/chialispp.py:316-318 | every other form left open has two more than the entry below it |
| ChialispLayout.EntryCarried | tools/chialispp.py:229-232 | the next line finds an entry as it is, or that of the second form left open |
| ChialispLayout.LaterArgumentRules | tools/chialispp.py:133-181 | a line on which the argument after a form `(if)` takes over the entry around it |
| HdPath.DerivePkAndSkFromHdPath | chia/cmds/keys_funcs.py:252-309 | parser and derivation loops compute the derivation, or the error of the first bad step |
| HdPath.FirstStep | chia/cmds/keys_funcs.py:291-309 | the root path derives the given keys; a path of one step derives their child, hardened iff the step ends in n, and is refused if that needs a secret key that is not there |
| HdPath.NextStep | chia/cmds/keys_funcs.py:291-309 | a step appended to a path text derives the child of its keys in the same way, and extends the text |
| HdPath.StepsIff | chia/cmds/keys_funcs.py:266-273 | the steps of a path are those of the text m/step/.../step, with one slash more or not |
| HdPath.ReadIntIff | chia/cmds/keys_funcs.py:285 | a step is a number iff it is a decimal numeral, single underscores allowed, with an optional sign and white space around it |
| HdPath.RefusedPath | chia/cmds/keys_funcs.py:266-288 | a path is refused for a fault that it has |
| HdPath.ReadShow | chia/cmds/keys_funcs.py:285 | a printed index reads back |
| HdPath.SplitJoin | chia/cmds/keys_funcs.py:266-309 | splitting the joined steps gives them back |
| HdPath.ObserverAgrees | chia/cmds/keys_funcs.py:291-309 | given the one-step homomorphism, owner and observer get the same public key and text, and the observer succeeds iff no step is hardened |
| HdPath.PathTextReparses | chia/cmds/keys_funcs.py:309 | the returned text derives the same keys again, except for the root path, whose text is refused |
| HdPath.DerivationComposes | chia/cmds/keys_funcs.py:291-309 | deriving along p and then along q is deriving along p/q |
| KeySearchRun.SearchDerived | chia/cmds/keys_funcs.py:386-475 | the loop over indexes, with its path text and index list restored each time, reports what the reference search reports |
| KeySearchRun.FindItems | chia/cmds/keys_funcs.py:428-443 | the matches of the remaining terms at one index, in order |
| KeySearchRun.TakeFound | chia/cmds/keys_funcs.py:448-451 | found terms leave the remaining ones |
| KeySearchRun.SearchAccounts | chia/cmds/keys_funcs.py:572-620 | the loop over seven accounts is one search over all their slots |
| KeySearchRun.SearchDerive | chia/cmds/keys_funcs.py:498-640 | the loop over keys: result and reports of the nested search, or the error of the path parser and what was printed before it |
| KeySearchRun.SearchNothing | chia/cmds/keys_funcs.py:459-460 | leaving a search early changes no result |
| KeySearchRun.RemainingAfter | chia/cmds/keys_funcs.py:561-563 | deleting the found terms leaves what the search left |
| KeySearch.SearchPartitions | chia/cmds/keys_funcs.py:448-451 | found and remaining terms partition the terms |
| KeySearch.FirstMatchSearch | chia/cmds/keys_funcs.py:386-475 | each term is reported at most once, at its first matching slot, and left over iff it matches nowhere |
| KeySearchPaths.PlacesListed | chia/cmds/keys_funcs.py:527-620 | the places are enumerated in lexicographic order of key, account and index, and they are the whole space |
| KeySearchPaths.SearchKeysIsSearch | chia/cmds/keys_funcs.py:527-624 | under the well-known paths or a root path, the nested loops with their early exits are one search over the whole space |
| KeySearchPaths.SearchFindsFirstPlaces | chia/cmds/keys_funcs.py:498-640 | if the root path, when given, can be derived: no error, each matching term reported once at the lexicographically first place, reports in the order of places and terms, and true iff every term matches somewhere |
| KeySearchMeaning.SearchMeaning | chia/cmds/keys_funcs.py:498-640 | told from derived keys and texts alone: each term is reported once, at the first place where it is found, with the printed path and in order, or found nowhere and left over |
| KeySearchMeaning.PlaceIff | chia/cmds/keys_funcs.py:386-443 | a place matches a term iff the term occurs in a text that is searched: of the secret key if there is one, the public key or the address of the keys that the path of the place derives; the first of these is what is reported |
| KeySearchMeaning.MatchIff | chia/cmds/keys_funcs.py:403-443 | that keys are derived only for some searches, and public keys without the secret one, makes no difference |
| KeySearchPaths.SearchStops | chia/cmds/keys_funcs.py:537-563 | the first key that takes part but cannot derive the root path ends the search with its error, unless the keys before it have found everything |
| KeySearch.SearchOrdered | chia/cmds/keys_funcs.py:386-475 | reports come in the order of the slots, and at one slot in the order of the terms |
| KeySearch.DedupOrder | chia/cmds/keys_funcs.py:386 | distinct terms keep the order of their first appearance |
| KeySearchPaths.ReportedPathDerives | chia/cmds/keys_funcs.py:537-620 | the path text of every place under the well-known paths derives the keys of that place |
| KeySearchPaths.ReportsDerive | chia/cmds/keys_funcs.py:537-620 | every report has a first place, and feeding its path back to the parser with the keys of the keyring entry at that place derives the key or address that was found |
| KeySearchPaths.RootedReportsDerive | chia/cmds/keys_funcs.py:537-559 | the same under a root path that has a step, with the keys of the entry under which the term was found |
| KeySearchPaths.RootedPathDerives | chia/cmds/keys_funcs.py:537-559 | the same under a given root path that has a step; under the bare root the reported path is refused |
| ClvmCache.CheckFile | tools/manage_clvm.py:274-324 | one source: verdict with the cache, and the entry added on a successful comparison |
| ClvmCache.CheckAll | tools/manage_clvm.py:268-324 | all sources: the cached verdicts; every new entry witnesses a comparison, every source that passes has the entry for its current files, and the others stay |
| ClvmCache.VerdictMeaning | tools/manage_clvm.py:274-324 | an uncached source passes iff its files are there, the stored hash decodes, the compiler gives the hex file and its tree hash is the stored one |
| ClvmCache.SavedHits | tools/manage_clvm.py:286-311 | a second run on the same files compiles nothing that passed |
| ClvmCache.ScanClvm | tools/manage_clvm.py:252-261 | one .clvm file is bad iff its first parenthesis outside comments opens a (mod |
| ClvmCache.ModMeaning | tools/manage_clvm.py:252-261 | that place told by positions: the first parenthesis that no semicolon of its line precedes |
| ClvmCache.CheckClvm | tools/manage_clvm.py:249-261 | fails iff some .clvm file is bad |
| ClvmCache.Check | tools/manage_clvm.py:207-355 | raises iff it wants to use a malformed cache file; else, with a sound cache file, verdicts and exit code are those of an uncached run, and the file stays sound |
| ClvmCache.CachedAgrees | tools/manage_clvm.py:286-311 | a hit on a sound cache means that compiling now would pass |
| ClvmCache.StillSound | tools/manage_clvm.py:309-311 | new entries keep the cache sound |
| ClvmCache.CheckRepeatedly | tools/manage_clvm.py:207-355 | any number of runs with any edits of sources and references in between agree with uncached runs |
| ClvmCache.ChangedIncludeIsMissed | tools/manage_clvm.py:181-197 | when an include changes what the same source compiles to, the cached run passes and the uncached one fails |
| ClvmCache.ChangedIncludesMatter | tools/manage_clvm.py:181-197 | after a change of includes the cache agrees with uncached checking of all possible files iff every cached source still compiles to what it did |
| ConfigMerge.DictAddNewDefault | chia/cmds/init_funcs.py:43-61 | the two loops compute the merge, or raise where it does |
| ConfigMerge.PopMarked | chia/cmds/init_funcs.py:44-46 | the first loop removes exactly the marked keys |
| ConfigMerge.MergeByPath | chia/cmds/init_funcs.py:43-61 | what the merged tree holds at a path, decided key by key |
| ConfigMerge.MarkedTakesDefault | chia/cmds/init_funcs.py:49-61 | a marked path that the defaults reach ends at the default |
| ConfigMerge.UnreachedKeepsUser | chia/cmds/init_funcs.py:55-61 | a mark that the defaults do not reach has no effect |
| ConfigMerge.UnreachedMarkSurvives | chia/cmds/init_funcs.py:55-61 | a concrete marked value that survives |
| ConfigMerge.UserValueKept | chia/cmds/init_funcs.py:55-61 | an unmarked plain value of the user is kept |
| ConfigMerge.UserOnlyKept | chia/cmds/init_funcs.py:47-61 | an unmarked value or tree of the user is kept where the defaults have no tree |
| ConfigMerge.TreesMerged | chia/cmds/init_funcs.py:55-59 | where both have trees, the merge of the two |
| ConfigMerge.NewDefaultAdded | chia/cmds/init_funcs.py:60-61 | an unmarked path the user lacks gets the default, or stays absent |
| ConfigMerge.FittingMerges | chia/cmds/init_funcs.py:55-59 | trees of compatible shape merge without raising |
| ConfigMerge.MergeRules | chia/cmds/init_funcs.py:43-61 | every path of the merged tree is decided: by a reached mark, then by the user, by the merge of two trees, or by the defaults |
| ConfigMerge.RaisesIff | chia/cmds/init_funcs.py:43-61 | the merge raises iff at some unmarked path a tree of the defaults meets a value of the user that is no tree and does not pass unnoticed |
| ConfigMerge.PlainMerge | chia/cmds/init_funcs.py:43-61 | which values pass unnoticed: an atom if there is nothing to do, a text or list that contains every default key, none of them a tree or marked, and no key to remove |
| ConfigMerge.MergeSelf | chia/cmds/init_funcs.py:43-61 | merging the defaults into themselves changes nothing |
| ConfigMerge.MergeIdempotent | chia/cmds/init_funcs.py:193-197 | merging again with freshly loaded defaults changes nothing |
| MemoryProfileRun.CallInfo.Add | tools/analyze_memory_profile.py:19-21 | a call adds its size and one to the count |
| MemoryProfileRun.Frame.Add | tools/analyze_memory_profile.py:31-33 | a visit adds its size and one to the count and leaves the callers alone |
| MemoryProfileRun.Frame.AddCall | tools/analyze_memory_profile.py:134-142 | the counter of one caller grows or is created, the others stay |
| MemoryProfileRun.RecordVisit | tools/analyze_memory_profile.py:132-142 | one first visit, on objects that no two names share |
| MemoryProfileRun.AddTrace | tools/analyze_memory_profile.py:124-143 | each function of a trace is counted once, recursion or not |
| MemoryProfileRun.CollectFrames | tools/analyze_memory_profile.py:112-143 | the dictionary holds the aggregate of all first visits, and the total is the sum of all sizes |
| MemoryProfileRun.EmitNodes | tools/analyze_memory_profile.py:155-171 | nodes for the frames that are not filtered, and the set of filtered names |
| MemoryProfileRun.EmitCallers | tools/analyze_memory_profile.py:178-201 | the edges drawn into one frame |
| MemoryProfileRun.EmitGraph | tools/analyze_memory_profile.py:145-201 | the two passes draw exactly the unfiltered nodes and edges; division by zero iff there are frames and no bytes |
| MemoryProfileRun.AnalyzeSlot | tools/analyze_memory_profile.py:105-202 | the command draws the graph of the traces, and fails iff some traceback is non-empty and no trace has bytes |
| MemoryProfile.AggregateNumbered | tools/analyze_memory_profile.py:140 | frame ids are exactly 0..n-1, one per frame |
| MemoryProfile.FramesAddUp | tools/analyze_memory_profile.py:112-143 | a frame is recorded iff some trace contains it; its size and count are those of these traces; its size is what enters it from nowhere plus the sum over its caller edges; an edge exists iff, and weighs what, the traces with that caller right before the first occurrence say |
| MemoryProfile.CallersAreFrames | tools/analyze_memory_profile.py:182-184 | every caller is a recorded frame |
| MemoryProfile.GraphMeaning | tools/analyze_memory_profile.py:155-201 | a node for each function in at least a thousandth of all bytes, with its bytes and traces; an edge between two nodes iff the calls weigh at least a ten-thousandth, with their weight; ids tell nodes apart; colours are in 1..10 and c means 10(c-1) <= 100 - percent < 10c |
| WalletCheck.FindDuplicates | chia/util/collection.py:6-15 | the values that occur at least twice |
| WalletCheck.CheckForGaps | chia/cmds/check_wallet_db.py:93-123 | raises iff start > end, else reports missing, unexpected and duplicate values |
| WalletCheck.GapVerdict | chia/cmds/check_wallet_db.py:93-123 | silent iff the list is every value from start to end once, or the range and the list have one element |
| WalletCheck.GapContents | chia/cmds/check_wallet_db.py:93-123 | which errors are reported and in which order: the values of the range that are missing, the values outside it, and the values that occur twice |
| WalletCheck.SingletonIsNotCompared | chia/cmds/check_wallet_db.py:106-107 | a wrong single element that is accepted |
| WalletCheck.CompactToMax | chia/cmds/check_wallet_db.py:311-319 | pigeonhole: no gap up to the maximum means a permutation of 0..n-1 |
| WalletCheck.GroupVerdict | chia/cmds/check_wallet_db.py:308-319 | one wallet and flag: raises iff there are only negative indexes, silent iff they are a permutation of 0..n-1 |
| WalletCheck.CheckDerivationsAreCompact | chia/cmds/check_wallet_db.py:298-320 | the loops over wallets and flags collect the gap errors, up to the first raise |
| WalletCheck.CompactVerdict | chia/cmds/check_wallet_db.py:298-320 | raises iff some wallet and flag has only negative indexes; silent iff all are permutations of 0..n-1 |
| WalletCheck.CompactInTable | chia/cmds/check_wallet_db.py:298-320 | the same told of the rows: raises iff some wallet and flag has rows but only negative indexes; silent iff indexes are counted from 0 up, each once |
| WalletCheck.ReportedGaps | chia/cmds/check_wallet_db.py:298-320 | every gap reported holds exactly the values of its wallet, flag and kind |
| WalletCheck.EveryGapReported | chia/cmds/check_wallet_db.py:298-320 | conversely every such value is in a reported gap |
| WalletCheck.SortIsStable | chia/cmds/check_wallet_db.py:183-184 | sorted, a permutation, and rows of equal index keep their order |
| WalletCheck.DpByWalletId | chia/cmds/check_wallet_db.py:179-185 | the wallets in order of first appearance, each with its rows stably sorted |
| WalletCheck.ScanUsed | chia/cmds/check_wallet_db.py:61-80 | the bad values of one wallet, and the first used row after an unused one |
| WalletCheck.CheckAddressesUsedContiguous | chia/cmds/check_wallet_db.py:52-90 | the errors of all wallets in order |
| WalletCheck.WalletVerdict | chia/cmds/check_wallet_db.py:61-88 | no error iff the rows read as ones and then zeros |
| WalletCheck.UsedVerdict | chia/cmds/check_wallet_db.py:52-90 | silent iff the sorted rows of every wallet read as ones and then zeros |
| WalletCheck.UsedVerdictInTable | chia/cmds/check_wallet_db.py:52-90 | the same without sorting: silent iff all values are 0 or 1 and no two rows of a wallet are out of order in the table |
| WalletCheck.UsedReport | chia/cmds/check_wallet_db.py:52-90 | every error names all bad values of its wallet, or the first index at which a used row comes after an unused one |
| RpcPipeline.LookupMeaning | tools/validate_rpcs.py:47-53 | heights 0..n-1 count from the front; below -1 they count from the back; all others raise |
| RpcPipeline.AcceptedLookup | tools/validate_rpcs.py:47-53 | looked up in the buffer of an accepted table, the height of a main-chain row gives its hash, a height without rows zeros, and a height above the peak raises |
| RpcPipeline.MakeRoom | tools/validate_rpcs.py:252-254 | waits until fewer than depth requests are in flight, or raises on an empty wait |
| RpcPipeline.CliAsync | tools/validate_rpcs.py:249-275 | the outcome of a run for any order of completion, with at most depth - 1 plus one batch in flight |
| RpcPipeline.IssuedSize | tools/validate_rpcs.py:237-250 | every endpoint is asked once for every height |
| RpcPipeline.IssuedAll | tools/validate_rpcs.py:237-250 | the requests are those of every endpoint for every height from start to end |
| RpcPipeline.PipelineBounded | tools/validate_rpcs.py:249-254 | between heights fewer than depth requests are in flight, all of them issued, and no wait is empty |
| RpcPipeline.RunMeaning | tools/validate_rpcs.py:249-275 | for every order of completion a run ends at the first height without a hash, or with a failure among the requests in flight after the last height, or with the division by zero for a single height, or cleanly |
| RpcPipeline.FailuresNoticed | tools/validate_rpcs.py:252-269 | a clean run means that no request failed iff all requests fit into the pipeline at once |
| RpcPipeline.NoDepth | tools/validate_rpcs.py:252-253 | a depth below one raises at the first height |
| Rewards.CalculatePoolReward | chia/consensus/block_rewards.py:10-30 | exactly seven eighths of the reward of the era, positive and within uint64 |
| Rewards.CalculateBaseFarmerReward | chia/consensus/block_rewards.py:33-53 | exactly one eighth of the reward of the era, positive and within uint64 |
| Rewards.Shares | chia/consensus/block_rewards.py:10-53 | the pool gets seven times the farmer reward, together the whole reward, which exceeds uint64 only at height 0 |
| Rewards.PaidIsSupply | chia/consensus/block_rewards.py:10-53 | the total paid up to any height is a closed form, linear in each era |
| Rewards.BytesRoundTrip | chia/consensus/coinbase.py:10 | big-endian bytes read back to the height |
| Rewards.ParentParts | chia/consensus/coinbase.py:9-14 | a parent is the first half of the challenge for the pool and the second for the farmer, and then the height |
| Rewards.CoinsOfChain | chia/consensus/coinbase.py:17-24 | the reward coins are exactly those of each height, with parent, puzzle hash and amount |
| Rewards.ParentsApart | chia/consensus/coinbase.py:9-14 | reward parents coincide iff they are of one height, and of one kind or of a challenge with equal halves |
| Rewards.CoinsDistinct | chia/consensus/coinbase.py:9-24 | a chain of n blocks has 2n distinct reward coins iff the halves of the challenge differ or no block pays its two coins alike |
| Rewards.ScheduledCoinsDistinct | chia/consensus/coinbase.py:9-24 | with the amounts of the reward schedule there are always 2n |
| Rewards.CoinsCoincide | chia/consensus/coinbase.py:9-24 | with equal halves, a block that pays the same amount to the same puzzle twice makes one coin |

## Left out

- ConfigMerge.DictAddNewDefault: works on values; that the dictionary is changed in place, and that default subtrees are shared with the merged tree, is not captured.
- MemoryProfileRun.EmitGraph: reads the contents of the dictionary as a value and draws sets; the order of lines in the output file, labels, pen widths and font colours are not modelled, and percentages are exact instead of floating point.
- UpgradeValidates.UpgradeThenValidate: when blocks are decoded the codec is assumed to be lossless; hashes in the v1 tables are assumed to be 64 lower-case hexadecimal digits.
- HdPath.ObserverAgrees: key arithmetic is abstract and the one-step homomorphism is a hypothesis.
- KeySearchMeaning.SearchMeaning: assumes the same homomorphism, and that each public key of the keyring belongs to its secret key.
- ChialispLayout.IfEntry: speaks of lines that nothing moves after the first argument; where two forms of earlier lines are closed before the `if`, a form closed inside it can move the line, and `StackLaw` and `ColumnLaw` give entry and column separately.
- HdPath.DerivePkAndSkFromHdPath: only ASCII digits are read as numbers, while int() also accepts other decimal digits; the errors of the key library for negative or very large indexes are not modelled.
- ClvmCache.CheckRepeatedly: assumes injective digests, and within the sequence a compiler whose result depends on the source bytes only; the empty exclude list is not modelled.
- CoinRewind.RewindEqualsReplay: coin names are given; a run starts from an empty table.
- Rewards.CoinsDistinct: coins are told apart by their parent, puzzle hash and amount; the hash that names a coin is not modelled.
- SQLite itself: pragmas, indexes, transactions, temporary directories, disk-space checks, and the error an INSERT raises.
- The conversion of sub_epoch_segments_v3, a single INSERT.
- Progress and time output of all commands, including the divisions by elapsed time.
- zstd, FullBlock and BlockRecord decoding: decoded fields are parameters.
- The gnu_comment_conventions branches of the formatter, since the flag is fixed to False, and the fields cur_line and got_form_on_line, which nothing reads.
- How unflatten_properties builds the tree of marks; the merge rules assume trees with empty texts as leaves.
- The error messages of the wallet check and how it prints ranges; check_wallets and check_unexpected_derivation_entries, which add only table lookups.
- Command declarations, RPC clients, prompts, the keyring, the other key commands, transaction paging, NFT and plot commands: plumbing.
- resolve_function, which reads function names from source files; traces carry the names.
