/** `manage_clvm check`: checking compiled puzzles with and without the result cache. */
module ClvmCache {
  import opened Bytes

  /** A source file without its suffix: directory and name. */
  datatype Stem = Stem(dir: string, name: string)

  /** The files of one run. `hashes` is the file of deployed puzzle hashes, keyed by name; `clvm` holds the
      lines of the .clvm files. */
  datatype Tree = Tree(sources: map<Stem, Blob>, hex: map<Stem, Blob>, hashes: map<string, string>,
                       clvm: map<Stem, seq<string>>)

  /** The foreign functions: SHA-256, the compiler with its include files fixed, the tree hash of a
      compiled program and the decoding of a stored hash. None is an exception. */
  datatype Tools = Tools(
    digest: Blob -> Blob,
    compile: (Stem, Blob) -> Option<Blob>,
    treeHash: Blob -> Option<Blob>,
    fromHex: string -> Option<Blob>)

  ghost predicate Injective(digest: Blob -> Blob) {
    forall a, b :: digest(a) == digest(b) ==> a == b
  }

  datatype Entry = Entry(clsp: Blob, hex: Blob, hash: Blob)

  type Entries = map<Stem, Entry>

  /** The cache file as the next run finds it. */
  datatype CacheFile = Absent | Malformed | Unversioned | WrongVersion | Stored(entries: Entries)

  datatype Verdict = Missing | Pass | Fail

  // ------------------------------------------------------------ .clvm files

  /** Where a character first occurs, or the length of the text. */
  function Find(text: string, c: char): (i: nat)
    ensures i <= |text| && c !in text[..i] && (i < |text| ==> text[i] == c)
  {
    if text == [] || text[0] == c then 0
    else
      var i := Find(text[1..], c);
      assert text[..1 + i] == [text[0]] + text[1..][..i];
      1 + i
  }

  /** The text from the first parenthesis of a line on, comments aside; empty if there is none. */
  function FromParen(line: string): string {
    var code := line[..Find(line, ';')];
    code[Find(code, '(')..]
  }

  /** The first parenthesis of the file opens a `(mod`. */
  ghost predicate StartsWithMod(lines: seq<string>) {
    exists i :: 0 <= i < |lines| && "(mod" <= FromParen(lines[i]) &&
      forall j :: 0 <= j < i ==> FromParen(lines[j]) == []
  }

  /** The loop over the lines of one .clvm file, which ends at the first parenthesis. */
  method ScanClvm(lines: seq<string>) returns (bad: bool)
    ensures bad <==> StartsWithMod(lines)
  {
    hide Find;
    for i := 0 to |lines|
      invariant forall j :: 0 <= j < i ==> FromParen(lines[j]) == []
    {
      var nonComment := lines[i][..Find(lines[i], ';')];
      if '(' in nonComment {
        var parenIndex := Find(nonComment, '(');
        ParenFound(nonComment);
        bad := |nonComment| >= parenIndex + 4 && nonComment[parenIndex..parenIndex + 4] == "(mod";
        ModPrefix(nonComment, parenIndex);
        return;
      }
      ParenFound(nonComment);
    }
    return false;
  }

  lemma ParenFound(code: string)
    ensures '(' in code <==> Find(code, '(') < |code|
  {
    var i := Find(code, '(');
    assert i == |code| ==> code[..i] == code;
  }

  lemma ModPrefix(code: string, i: nat)
    requires i <= |code|
    ensures "(mod" <= code[i..] <==> |code| >= i + 4 && code[i..i + 4] == "(mod"
  {
    if |code| >= i + 4 {
      assert code[i..][..4] == code[i..i + 4];
    }
  }

  /** The first parenthesis of the line that no semicolon precedes stands at p. */
  ghost predicate ParenAt(line: string, p: nat) {
    p < |line| && line[p] == '(' && forall i :: 0 <= i < p ==> line[i] != ';' && line[i] != '('
  }

  lemma FromParenIs(line: string, p: nat)
    requires ParenAt(line, p)
    ensures |FromParen(line)| > 0 && ("(mod" <= FromParen(line) <==> "(mod" <= line[p..])
  {
    var k := Find(line, ';');
    var code := line[..k];
    assert p < k;
    assert '(' == code[p];
    assert Find(code, '(') == p;
    SameStart(line, p, k);
  }

  lemma SameStart(line: string, p: nat, k: nat)
    requires p < k <= |line| && ';' !in line[..k] && (k < |line| ==> line[k] == ';')
    ensures "(mod" <= line[..k][p..] <==> "(mod" <= line[p..]
  {
    var mod := "(mod";
    if mod <= line[p..] {
      forall j | 0 <= j < 4
        ensures line[p + j] == mod[j] && line[p + j] != ';'
      {
        assert line[p..][j] == mod[j];
      }
      assert p + 4 <= k;
    }
    if mod <= line[..k][p..] {
      assert line[..k][p..] <= line[p..];
    }
  }

  lemma NoParen(line: string)
    requires FromParen(line) != []
    ensures exists p :: ParenAt(line, p)
  {
    var k := Find(line, ';');
    var code := line[..k];
    var i := Find(code, '(');
    forall j | 0 <= j < i
      ensures line[j] != ';' && line[j] != '('
    {
      assert code[..i][j] == line[j] && line[..k][j] == line[j];
    }
    assert ParenAt(line, i);
  }

  /** The first parenthesis of the file outside comments stands in line i at p, and starts the text `(mod`. */
  ghost predicate OpensMod(lines: seq<string>, i: nat, p: nat) {
    && i < |lines| && ParenAt(lines[i], p) && "(mod" <= lines[i][p..]
    && forall j: nat, q: nat :: j < i ==> !ParenAt(lines[j], q)
  }

  /** A file is bad iff there is such a place. */
  lemma ModMeaning(lines: seq<string>)
    ensures StartsWithMod(lines) <==> exists i, p :: OpensMod(lines, i, p)
  {
    hide FromParen, Find;
    if StartsWithMod(lines) {
      var i :| 0 <= i < |lines| && "(mod" <= FromParen(lines[i]) &&
               forall j :: 0 <= j < i ==> FromParen(lines[j]) == [];
      NoParen(lines[i]);
      var p :| ParenAt(lines[i], p);
      FromParenIs(lines[i], p);
      forall j: nat, q: nat | j < i
        ensures !ParenAt(lines[j], q)
      {
        if ParenAt(lines[j], q) {
          FromParenIs(lines[j], q);
        }
      }
      assert OpensMod(lines, i, p);
    }
    if i: nat, p: nat :| OpensMod(lines, i, p) {
      FromParenIs(lines[i], p);
      forall j | 0 <= j < i
        ensures FromParen(lines[j]) == []
      {
        if FromParen(lines[j]) != [] {
          NoParen(lines[j]);
        }
      }
    }
  }

  // ------------------------------------------------------------ one file

  predicate IsMissing(tree: Tree, stem: Stem) {
    stem !in tree.hex || stem.name !in tree.hashes
  }

  /** Compile and compare, with no cache. */
  function Uncached(tools: Tools, tree: Tree, stem: Stem): Verdict
    requires stem in tree.sources
  {
    if IsMissing(tree, stem) then Missing
    else
      var hash := tools.fromHex(tree.hashes[stem.name]);
      if hash.None? then Fail
      else if Compiles(tools, stem, tree.sources[stem], tree.hex[stem], hash.value) then Pass
      else Fail
  }

  /** The compiler turns the source into exactly this hex file, whose tree hash is this hash. */
  predicate Compiles(tools: Tools, stem: Stem, source: Blob, hex: Blob, hash: Blob) {
    tools.compile(stem, source) == Some(hex) && tools.treeHash(hex) == Some(hash)
  }

  function NewEntry(tools: Tools, source: Blob, hex: Blob, hash: Blob): Entry {
    Entry(tools.digest(source), tools.digest(hex), tools.digest(hash))
  }

  /** The cache entry for the current files, if they are all there and the stored hash decodes. */
  function CurrentEntry(tools: Tools, tree: Tree, stem: Stem): Option<Entry>
    requires stem in tree.sources
  {
    if IsMissing(tree, stem) then None
    else
      match tools.fromHex(tree.hashes[stem.name])
      case None => None
      case Some(hash) => Some(NewEntry(tools, tree.sources[stem], tree.hex[stem], hash))
  }

  predicate Hit(tools: Tools, tree: Tree, stem: Stem, entries: Entries)
    requires stem in tree.sources
  {
    stem in entries && CurrentEntry(tools, tree, stem) == Some(entries[stem])
  }

  function Cached(tools: Tools, tree: Tree, stem: Stem, entries: Entries): Verdict
    requires stem in tree.sources
  {
    if Hit(tools, tree, stem, entries) then Pass else Uncached(tools, tree, stem)
  }

  /** One iteration of the loop over sources. */
  method CheckFile(tools: Tools, tree: Tree, stem: Stem, entries: Entries)
    returns (v: Verdict, entries': Entries, modified: bool)
    requires stem in tree.sources
    ensures v == Cached(tools, tree, stem, entries)
    ensures modified <==> v == Pass && !Hit(tools, tree, stem, entries)
    ensures entries' == if modified then entries[stem := CurrentEntry(tools, tree, stem).value] else entries
  {
    entries', modified := entries, false;
    if stem !in tree.hex || stem.name !in tree.hashes { return Missing, entries, false; }
    var referenceHash := tools.fromHex(tree.hashes[stem.name]);
    if referenceHash.None? { return Fail, entries, false; }
    var newEntry := NewEntry(tools, tree.sources[stem], tree.hex[stem], referenceHash.value);
    var cacheHit := stem in entries && entries[stem] == newEntry;
    if cacheHit { return Pass, entries, false; }
    var generatedHex := tools.compile(stem, tree.sources[stem]);
    if generatedHex.None? { return Fail, entries, false; }
    var generatedHash := tools.treeHash(generatedHex.value);
    if generatedHash.None? { return Fail, entries, false; }
    if generatedHex.value != tree.hex[stem] || generatedHash.value != referenceHash.value {
      return Fail, entries, false;
    }
    return Pass, entries[stem := newEntry], true;
  }

  // ------------------------------------------------------------ one run

  datatype Outcome = Outcome(verdicts: map<Stem, Verdict>, failed: bool)

  /** Everything that makes a run fail, given the verdict on each file. */
  ghost function Conclude(tree: Tree, verdicts: map<Stem, Verdict>): Outcome {
    Outcome(verdicts,
            || !(tree.hex.Keys <= tree.sources.Keys)
            || (exists stem :: stem in tree.clvm && StartsWithMod(tree.clvm[stem]))
            || (exists stem :: stem in verdicts && verdicts[stem] != Pass)
            || !(tree.hashes.Keys <= set stem | stem in verdicts && verdicts[stem] != Missing :: stem.name))
  }

  ghost function UncachedRun(tools: Tools, tree: Tree): Outcome {
    Conclude(tree, map stem | stem in tree.sources :: Uncached(tools, tree, stem))
  }

  /** An uncached verdict, told from the files and the tools. */
  lemma VerdictMeaning(tools: Tools, tree: Tree, stem: Stem)
    requires stem in tree.sources
    ensures Uncached(tools, tree, stem) == Missing <==> stem !in tree.hex || stem.name !in tree.hashes
    ensures Uncached(tools, tree, stem) == Pass <==>
            && stem in tree.hex && stem.name in tree.hashes
            && tools.fromHex(tree.hashes[stem.name]).Some?
            && tools.compile(stem, tree.sources[stem]) == Some(tree.hex[stem])
            && tools.treeHash(tree.hex[stem]) == tools.fromHex(tree.hashes[stem.name])
  {
  }

  function LoadCache(file: CacheFile, useCache: bool): Entries {
    if useCache && file.Stored? then file.entries else map[]
  }

  /** What becomes of the cache: the entry of every source that passes is the one for the current files, and the
      others stay. */
  ghost predicate Refreshed(tools: Tools, tree: Tree, cache: Entries, entries: Entries) {
    && (forall s :: s in tree.sources && Cached(tools, tree, s, cache) == Pass ==>
          s in entries && CurrentEntry(tools, tree, s) == Some(entries[s]))
    && forall s :: !(s in tree.sources && Cached(tools, tree, s, cache) == Pass) ==> SameAt(s, cache, entries)
  }

  ghost predicate SameAt(s: Stem, a: Entries, b: Entries) {
    (s in a <==> s in b) && (s in a ==> a[s] == b[s])
  }

  /** The loop over all sources. */
  method CheckAll(tools: Tools, tree: Tree, order: seq<Stem>, cache: Entries)
    returns (verdicts: map<Stem, Verdict>, entries: Entries, modified: bool)
    requires (forall s :: s in order <==> s in tree.sources) &&
             forall i, j :: 0 <= i < j < |order| ==> order[i] != order[j]
    ensures verdicts == map stem | stem in tree.sources :: Cached(tools, tree, stem, cache)
    ensures Refreshed(tools, tree, cache, entries)
    ensures forall s :: s in entries ==> (s in cache && entries[s] == cache[s]) || Witnessed(tools, tree, s, entries[s])
    ensures !modified ==> entries == cache
  {
    hide Cached, CurrentEntry, Hit, Checked, Refreshed;
    entries, modified, verdicts := cache, false, map[];
    NothingChecked(tools, tree, cache);
    for i := 0 to |order|
      invariant Checked(tools, tree, order[..i], cache, verdicts, entries)
      invariant !modified ==> entries == cache
    {
      var stem := order[i];
      assert stem in order && stem !in order[..i];
      ghost var before := entries;
      var v, changed;
      v, entries, changed := CheckFile(tools, tree, stem, entries);
      OneChecked(tools, tree, order[..i], cache, verdicts, before, stem);
      verdicts := verdicts[stem := v];
      modified := modified || changed;
      assert order[..i + 1] == order[..i] + [stem];
    }
    assert order[..|order|] == order;
    AllChecked(tools, tree, order, cache, verdicts, entries);
  }

  /** After some of the sources: their verdicts, and what the entries stand for. */
  ghost predicate Checked(tools: Tools, tree: Tree, done: seq<Stem>, cache: Entries, verdicts: map<Stem, Verdict>,
                          entries: Entries) {
    && verdicts.Keys == (set s | s in done)
    && (forall s :: s in verdicts ==> s in tree.sources && verdicts[s] == Cached(tools, tree, s, cache))
    && forall s :: EntryChecked(tools, tree, cache, Passed(verdicts, s), s, entries)
  }

  ghost predicate Passed(verdicts: map<Stem, Verdict>, s: Stem) {
    s in verdicts && verdicts[s] == Pass
  }

  /** The entry of one source, given whether the source has been checked and passed. */
  ghost predicate EntryChecked(tools: Tools, tree: Tree, cache: Entries, passed: bool, s: Stem, entries: Entries) {
    && (passed ==> s in tree.sources && s in entries && CurrentEntry(tools, tree, s) == Some(entries[s]))
    && (!passed ==> SameAt(s, cache, entries))
    && (s in entries ==> (s in cache && entries[s] == cache[s]) || Witnessed(tools, tree, s, entries[s]))
  }

  lemma NothingChecked(tools: Tools, tree: Tree, cache: Entries)
    ensures Checked(tools, tree, [], cache, map[], cache)
  {
  }

  lemma OneChecked(tools: Tools, tree: Tree, done: seq<Stem>, cache: Entries, verdicts: map<Stem, Verdict>,
                   entries: Entries, stem: Stem)
    requires Checked(tools, tree, done, cache, verdicts, entries) && stem in tree.sources && stem !in done
    ensures var v := Cached(tools, tree, stem, entries);
            var changed := v == Pass && !Hit(tools, tree, stem, entries);
            && (changed ==> CurrentEntry(tools, tree, stem).Some?)
            && Checked(tools, tree, done + [stem], cache, verdicts[stem := v],
                       if changed then entries[stem := CurrentEntry(tools, tree, stem).value] else entries)
  {
    hide Cached, CurrentEntry, Hit, Witnessed, EntryChecked;
    assert !Passed(verdicts, stem);
    StillSame(tools, tree, cache, stem, entries);
    SameEntry(tools, tree, stem, entries, cache);
    var v := Cached(tools, tree, stem, entries);
    var changed := v == Pass && !Hit(tools, tree, stem, entries);
    if changed {
      PassWitness(tools, tree, stem, entries);
    }
    var next := if changed then entries[stem := CurrentEntry(tools, tree, stem).value] else entries;
    OneEntry(tools, tree, cache, stem, entries, next);
    var after := verdicts[stem := v];
    forall s
      ensures EntryChecked(tools, tree, cache, Passed(after, s), s, next)
    {
      if s != stem {
        OtherEntry(tools, tree, cache, Passed(verdicts, s), s, entries, next);
      }
    }
    assert forall s :: s in done + [stem] <==> s in done || s == stem;
  }

  lemma StillSame(tools: Tools, tree: Tree, cache: Entries, s: Stem, entries: Entries)
    requires EntryChecked(tools, tree, cache, false, s, entries)
    ensures SameAt(s, cache, entries)
  {
  }

  /** The entry of the source just checked. */
  lemma OneEntry(tools: Tools, tree: Tree, cache: Entries, s: Stem, entries: Entries, next: Entries)
    requires s in tree.sources && EntryChecked(tools, tree, cache, false, s, entries)
    requires var v := Cached(tools, tree, s, entries);
             if v == Pass && !Hit(tools, tree, s, entries)
             then CurrentEntry(tools, tree, s).Some? && next == entries[s := CurrentEntry(tools, tree, s).value]
             else next == entries
    ensures EntryChecked(tools, tree, cache, Cached(tools, tree, s, entries) == Pass, s, next)
  {
    hide Cached, CurrentEntry, Hit, Witnessed;
    if Hit(tools, tree, s, entries) {
      HitEntry(tools, tree, s, entries);
    } else if Cached(tools, tree, s, entries) == Pass {
      PassWitness(tools, tree, s, entries);
    }
  }

  lemma OtherEntry(tools: Tools, tree: Tree, cache: Entries, passed: bool, s: Stem, entries: Entries, next: Entries)
    requires EntryChecked(tools, tree, cache, passed, s, entries) && SameAt(s, entries, next)
    ensures EntryChecked(tools, tree, cache, passed, s, next)
  {
    hide CurrentEntry, Witnessed;
  }

  lemma HitEntry(tools: Tools, tree: Tree, stem: Stem, entries: Entries)
    requires stem in tree.sources && Hit(tools, tree, stem, entries)
    ensures stem in entries && CurrentEntry(tools, tree, stem) == Some(entries[stem])
  {
  }

  lemma AllChecked(tools: Tools, tree: Tree, order: seq<Stem>, cache: Entries, verdicts: map<Stem, Verdict>,
                   entries: Entries)
    requires Checked(tools, tree, order, cache, verdicts, entries) && forall s :: s in order <==> s in tree.sources
    ensures verdicts == map stem | stem in tree.sources :: Cached(tools, tree, stem, cache)
    ensures Refreshed(tools, tree, cache, entries)
    ensures forall s :: s in entries ==> (s in cache && entries[s] == cache[s]) || Witnessed(tools, tree, s, entries[s])
  {
    hide Cached, Witnessed, CurrentEntry;
    assert forall s :: Passed(verdicts, s) <==> s in tree.sources && Cached(tools, tree, s, cache) == Pass;
    assert forall s :: EntryChecked(tools, tree, cache, Passed(verdicts, s), s, entries);
    forall s | s in entries
      ensures (s in cache && entries[s] == cache[s]) || Witnessed(tools, tree, s, entries[s])
    {
      assert EntryChecked(tools, tree, cache, Passed(verdicts, s), s, entries);
    }
    forall s
      ensures s in tree.sources && Cached(tools, tree, s, cache) == Pass ==>
                s in entries && CurrentEntry(tools, tree, s) == Some(entries[s])
      ensures !(s in tree.sources && Cached(tools, tree, s, cache) == Pass) ==> SameAt(s, cache, entries)
    {
      assert EntryChecked(tools, tree, cache, Passed(verdicts, s), s, entries);
    }
  }

  /** An entry made in this run stands for a comparison that succeeded. */
  ghost predicate Witnessed(tools: Tools, tree: Tree, stem: Stem, entry: Entry) {
    stem in tree.sources && Uncached(tools, tree, stem) == Pass && CurrentEntry(tools, tree, stem) == Some(entry)
  }

  lemma SameEntry(tools: Tools, tree: Tree, stem: Stem, a: Entries, b: Entries)
    requires stem in tree.sources && (stem in a <==> stem in b) && (stem in a ==> a[stem] == b[stem])
    ensures Hit(tools, tree, stem, a) == Hit(tools, tree, stem, b)
            && Cached(tools, tree, stem, a) == Cached(tools, tree, stem, b)
  {
  }

  lemma PassWitness(tools: Tools, tree: Tree, stem: Stem, entries: Entries)
    requires stem in tree.sources && Cached(tools, tree, stem, entries) == Pass && !Hit(tools, tree, stem, entries)
    ensures CurrentEntry(tools, tree, stem).Some? && Witnessed(tools, tree, stem, CurrentEntry(tools, tree, stem).value)
  {
  }

  /** The loop over the .clvm files. */
  method CheckClvm(tree: Tree) returns (bad: bool)
    ensures bad <==> exists stem :: stem in tree.clvm && StartsWithMod(tree.clvm[stem])
  {
    hide StartsWithMod;
    bad := false;
    var todo := tree.clvm.Keys;
    while todo != {}
      invariant todo <= tree.clvm.Keys
      invariant bad <==> exists stem :: stem in tree.clvm.Keys - todo && StartsWithMod(tree.clvm[stem])
      decreases |todo|
    {
      var stem :| stem in todo;
      var found := ScanClvm(tree.clvm[stem]);
      bad := bad || found;
      todo := todo - {stem};
    }
  }

  /** The cache file holds the refreshed entries; it is left alone if there is nothing to refresh. */
  ghost predicate Saved(tools: Tools, tree: Tree, file: CacheFile, file': CacheFile) {
    var before := if file.Stored? then file.entries else map[];
    var after := if file'.Stored? then file'.entries else map[];
    Refreshed(tools, tree, before, after) && (before == after ==> file' == file || file' == Stored(after))
  }

  /** Running again on the same files compiles nothing that passed. */
  lemma SavedHits(tools: Tools, tree: Tree, file: CacheFile, file': CacheFile, stem: Stem)
    requires Saved(tools, tree, file, file') && stem in tree.sources
    requires Cached(tools, tree, stem, if file.Stored? then file.entries else map[]) == Pass
    ensures file'.Stored? && Hit(tools, tree, stem, file'.entries)
  {
  }

  /** The command: load the cache, check every source, save the cache if it changed. None is the uncaught
      exception for a cache file that is no JSON object of the expected shape. */
  method Check(tools: Tools, tree: Tree, order: seq<Stem>, file: CacheFile, useCache: bool)
    returns (out: Option<Outcome>, file': CacheFile)
    requires (forall s :: s in order <==> s in tree.sources) &&
             forall i, j :: 0 <= i < j < |order| ==> order[i] != order[j]
    requires Injective(tools.digest) && SoundFile(tools, file)
    ensures out == if useCache && file.Malformed? then None else Some(UncachedRun(tools, tree))
    ensures SoundFile(tools, file')
    ensures file' != file ==> useCache && !file.Malformed? && file'.Stored?
    ensures useCache && !file.Malformed? ==> Saved(tools, tree, file, file')
  {
    hide Cached, Uncached, StartsWithMod, Sound, Refreshed;
    if useCache && file.Malformed? { return None, file; }
    var cache := LoadCache(file, useCache);
    EmptyIsSound(tools);
    var bad := CheckClvm(tree);
    var verdicts, entries, modified := CheckAll(tools, tree, order, cache);
    forall s | s in tree.sources
      ensures Cached(tools, tree, s, cache) == Uncached(tools, tree, s)
    {
      CachedAgrees(tools, tree, s, cache);
    }
    assert verdicts == map stem | stem in tree.sources :: Uncached(tools, tree, stem);
    StillSound(tools, tree, cache, entries);
    file' := if useCache && modified then Stored(entries) else file;
    var failed := !(tree.hex.Keys <= tree.sources.Keys) || bad;
    if exists stem :: stem in verdicts.Keys && verdicts[stem] != Pass {
      failed := true;
    }
    if !(tree.hashes.Keys <= set stem | stem in verdicts.Keys && verdicts[stem] != Missing :: stem.name) {
      failed := true;
    }
    out := Some(Outcome(verdicts, failed));
  }

  lemma EmptyIsSound(tools: Tools)
    ensures Sound(tools, map[])
  {
  }

  // ------------------------------------------------------------ why the cache can be trusted

  /** Every entry stands for some past source, hex file and hash that compared equal. */
  ghost predicate Sound(tools: Tools, entries: Entries) {
    forall stem :: stem in entries ==> Stands(tools, stem, entries[stem])
  }

  ghost predicate Stands(tools: Tools, stem: Stem, entry: Entry) {
    exists source, hex, hash :: entry == NewEntry(tools, source, hex, hash) && Compiles(tools, stem, source, hex, hash)
  }

  ghost predicate SoundFile(tools: Tools, file: CacheFile) {
    file.Stored? ==> Sound(tools, file.entries)
  }

  /** With a sound cache, the cached verdict on a file is the uncached one, whatever the files are now. */
  lemma CachedAgrees(tools: Tools, tree: Tree, stem: Stem, entries: Entries)
    requires Injective(tools.digest) && Sound(tools, entries) && stem in tree.sources
    ensures Cached(tools, tree, stem, entries) == Uncached(tools, tree, stem)
  {
    if Hit(tools, tree, stem, entries) {
      var entry := entries[stem];
      var source, hex, hash :| entry == NewEntry(tools, source, hex, hash) && Compiles(tools, stem, source, hex, hash);
      var now := tools.fromHex(tree.hashes[stem.name]).value;
      assert tools.digest(source) == tools.digest(tree.sources[stem]);
      assert tools.digest(hex) == tools.digest(tree.hex[stem]);
      assert tools.digest(hash) == tools.digest(now);
    }
  }

  lemma StillSound(tools: Tools, tree: Tree, cache: Entries, entries: Entries)
    requires Sound(tools, cache)
    requires forall s :: s in entries ==>
               (s in cache && entries[s] == cache[s]) || Witnessed(tools, tree, s, entries[s])
    ensures Sound(tools, entries)
  {
    forall s | s in entries
      ensures Stands(tools, s, entries[s])
    {
      if !(s in cache && entries[s] == cache[s]) {
        var hash := tools.fromHex(tree.hashes[s.name]).value;
        assert entries[s] == NewEntry(tools, tree.sources[s], tree.hex[s], hash);
        assert Compiles(tools, s, tree.sources[s], tree.hex[s], hash);
      }
    }
  }

  // ------------------------------------------------------------ many runs

  datatype Run = Run(tree: Tree, order: seq<Stem>, useCache: bool)

  ghost predicate ProperRun(run: Run) {
    && (forall s :: s in run.order <==> s in run.tree.sources)
    && forall i, j :: 0 <= i < j < |run.order| ==> run.order[i] != run.order[j]
  }

  /** Any number of runs, with the files edited in between: started without a usable cache file, every
      run comes to the verdicts and the exit code of an uncached run; only a malformed cache file, which is
      never replaced, stops the runs that want to use it. */
  method CheckRepeatedly(tools: Tools, runs: seq<Run>, start: CacheFile) returns (outs: seq<Option<Outcome>>)
    requires Injective(tools.digest) && !start.Stored?
    requires forall i :: 0 <= i < |runs| ==> ProperRun(runs[i])
    ensures |outs| == |runs|
    ensures forall i :: 0 <= i < |runs| ==>
              outs[i] == if start.Malformed? && runs[i].useCache then None else Some(UncachedRun(tools, runs[i].tree))
  {
    hide Sound, UncachedRun;
    outs := [];
    var file := start;
    for i := 0 to |runs|
      invariant |outs| == i && SoundFile(tools, file) && file.Malformed? == start.Malformed?
      invariant forall k :: 0 <= k < i ==>
                  outs[k] == if start.Malformed? && runs[k].useCache then None
                    else Some(UncachedRun(tools, runs[k].tree))
    {
      assert ProperRun(runs[i]);
      var out;
      out, file := Check(tools, runs[i].tree, runs[i].order, file, runs[i].useCache);
      outs := outs + [out];
    }
  }

  /** The entry covers the source file but not what it includes: after an include file has changed what
      the compiler makes of the same source, the cached run still passes and the uncached one fails. */
  lemma ChangedIncludeIsMissed(before: Tools, after: Tools, stem: Stem, source: Blob, hex: Blob, hash: Blob,
                               text: string)
    requires before.digest == after.digest && before.fromHex == after.fromHex && before.fromHex(text) == Some(hash)
    requires Compiles(before, stem, source, hex, hash) && after.compile(stem, source) != Some(hex)
    ensures var tree := Tree(map[stem := source], map[stem := hex], map[stem.name := text], map[]);
            var entries := map[stem := NewEntry(before, source, hex, hash)];
            && Sound(before, entries)
            && Cached(after, tree, stem, entries) == Pass
            && Uncached(after, tree, stem) == Fail
  {
    var entries := map[stem := NewEntry(before, source, hex, hash)];
    assert Stands(before, stem, entries[stem]);
  }

  // ------------------------------------------------------------ exactly when changed includes matter

  /** Everything but the compiler stayed the same. */
  ghost predicate OnlyCompilerChanged(before: Tools, after: Tools) {
    before.digest == after.digest && before.fromHex == after.fromHex && before.treeHash == after.treeHash
  }

  /** An entry that some hash file can call up: made for these bytes, and the hash has a text. */
  ghost predicate Reachable(tools: Tools, entry: Entry, source: Blob, hex: Blob, hash: Blob, text: string) {
    entry == NewEntry(tools, source, hex, hash) && tools.fromHex(text) == Some(hash)
  }

  /** Every source behind such an entry compiles to what it did. */
  ghost predicate StillCompiles(before: Tools, after: Tools, entries: Entries) {
    forall stem, source, hex, hash, text
      :: stem in entries && Reachable(before, entries[stem], source, hex, hash, text) ==>
           after.compile(stem, source) == before.compile(stem, source)
  }

  ghost predicate CacheAgrees(tools: Tools, entries: Entries) {
    forall tree: Tree, stem :: stem in tree.sources ==>
      Cached(tools, tree, stem, entries) == Uncached(tools, tree, stem)
  }

  /** After the include files have changed, the cache still agrees with uncached checking of whatever files
      there may be, exactly when every cached source compiles to what it did. */
  lemma ChangedIncludesMatter(before: Tools, after: Tools, entries: Entries)
    requires OnlyCompilerChanged(before, after) && Injective(before.digest) && Sound(before, entries)
    ensures CacheAgrees(after, entries) <==> StillCompiles(before, after, entries)
  {
    if StillCompiles(before, after, entries) {
      forall tree: Tree, stem | stem in tree.sources
        ensures Cached(after, tree, stem, entries) == Uncached(after, tree, stem)
      {
        StillAgrees(before, after, entries, tree, stem);
      }
    }
    if CacheAgrees(after, entries) {
      forall stem, source, hex, hash, text | stem in entries
        && Reachable(before, entries[stem], source, hex, hash, text)
        ensures after.compile(stem, source) == before.compile(stem, source)
      {
        var tree := Tree(map[stem := source], map[stem := hex], map[stem.name := text], map[]);
        assert stem in tree.sources && Hit(after, tree, stem, entries);
        assert Cached(after, tree, stem, entries) == Uncached(after, tree, stem);
        EntryCompiles(before, stem, entries[stem], source, hex, hash);
      }
    }
  }

  /** Behind an entry of a sound cache there is only one comparison, and it succeeded. */
  lemma EntryCompiles(tools: Tools, stem: Stem, entry: Entry, source: Blob, hex: Blob, hash: Blob)
    requires Injective(tools.digest) && Stands(tools, stem, entry) && entry == NewEntry(tools, source, hex, hash)
    ensures Compiles(tools, stem, source, hex, hash)
  {
    var source', hex', hash' :| entry == NewEntry(tools, source', hex', hash')
      && Compiles(tools, stem, source', hex', hash');
    assert tools.digest(source) == tools.digest(source') && tools.digest(hex) == tools.digest(hex')
           && tools.digest(hash) == tools.digest(hash');
  }

  lemma StillAgrees(before: Tools, after: Tools, entries: Entries, tree: Tree, stem: Stem)
    requires OnlyCompilerChanged(before, after) && Injective(before.digest) && Sound(before, entries)
    requires StillCompiles(before, after, entries) && stem in tree.sources
    ensures Cached(after, tree, stem, entries) == Uncached(after, tree, stem)
  {
    if Hit(after, tree, stem, entries) {
      var text := tree.hashes[stem.name];
      var source, hex, hash := tree.sources[stem], tree.hex[stem], after.fromHex(text).value;
      assert Reachable(before, entries[stem], source, hex, hash, text);
      EntryCompiles(before, stem, entries[stem], source, hex, hash);
    }
  }
}
