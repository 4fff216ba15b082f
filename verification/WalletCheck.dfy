/** The wallet database checks: derivation indexes without gaps, and used addresses before unused ones. */
module WalletCheck {
  import opened Bytes

  datatype DerivationPath = DerivationPath(derivationIndex: int, walletId: int, used: int, hardened: int)

  datatype GapError = Missing(values: set<int>) | Unexpected(values: set<int>) | Duplicate(values: set<int>)

  datatype Raised = ValueError

  // ------------------------------------------------------------ gaps

  predicate Between(start: int, x: int, end: int) {
    start <= x <= end
  }

  function Range(start: int, end: int): set<int> {
    set x: int | start <= x <= end && Between(start, x, end)
  }

  function Elements(elems: seq<int>): set<int> {
    set x | x in elems
  }

  function Repeated(elems: seq<int>): set<int> {
    set x | x in elems && multiset(elems)[x] >= 2
  }

  /** Every value from start to end, once, and nothing else. */
  ghost predicate Compact(elems: seq<int>, start: int, end: int) {
    multiset(elems) == multiset(Range(start, end))
  }

  method FindDuplicates(elems: seq<int>) returns (duplicates: set<int>)
    ensures duplicates == Repeated(elems)
  {
    var seen: set<int> := {};
    duplicates := {};
    for k := 0 to |elems|
      invariant seen == Elements(elems[..k])
      invariant duplicates == Repeated(elems[..k])
    {
      assert elems[..k + 1] == elems[..k] + [elems[k]];
      if elems[k] in seen {
        duplicates := duplicates + {elems[k]};
      }
      seen := seen + {elems[k]};
    }
    assert elems[..|elems|] == elems;
  }

  /** What the gap check reports, once start <= end. */
  function GapErrors(elems: seq<int>, start: int, end: int): seq<GapError> {
    if start == end && |elems| == 1 then []
    else
      var missing := Range(start, end) - Elements(elems);
      var extras := Elements(elems) - Range(start, end);
      (if missing != {} then [Missing(missing)] else []) +
      (if extras != {} then [Unexpected(extras)] else []) +
      (if Repeated(elems) != {} then [Duplicate(Repeated(elems))] else [])
  }

  method CheckForGaps(elems: seq<int>, start: int, end: int) returns (r: Result<seq<GapError>, Raised>)
    ensures r == if start > end then Err(ValueError) else Ok(GapErrors(elems, start, end))
  {
    if start > end {
      return Err(ValueError);
    }
    var errors: seq<GapError> := [];
    if start == end && |elems| == 1 {
      return Ok(errors);
    }
    var expected, actual := Range(start, end), Elements(elems);
    var missing := expected - actual;
    var extras := actual - expected;
    var duplicates := FindDuplicates(elems);
    if |missing| > 0 { errors := errors + [Missing(missing)]; }
    assert errors == if missing != {} then [Missing(missing)] else [];
    if |extras| > 0 { errors := errors + [Unexpected(extras)]; }
    assert errors == (if missing != {} then [Missing(missing)] else [])
                  + (if extras != {} then [Unexpected(extras)] else []);
    if |duplicates| > 0 { errors := errors + [Duplicate(duplicates)]; }
    assert errors == (if missing != {} then [Missing(missing)] else [])
                  + (if extras != {} then [Unexpected(extras)] else []) +
                     (if duplicates != {} then [Duplicate(duplicates)] else []);
    return Ok(errors);
  }

  /** The check is silent exactly on compact lists, and on any list of one element when the range has one. */
  lemma GapVerdict(elems: seq<int>, start: int, end: int)
    ensures GapErrors(elems, start, end) == [] <==> Compact(elems, start, end) || (start == end && |elems| == 1)
  {
    var expected := Range(start, end);
    if Compact(elems, start, end) {
      forall x
        ensures x in elems <==> x in expected
        ensures multiset(elems)[x] <= 1
      {
        assert x in elems <==> x in multiset(elems);
        assert multiset(elems)[x] == multiset(expected)[x];
      }
      assert expected - Elements(elems) == {} && Elements(elems) - expected == {};
    } else if GapErrors(elems, start, end) == [] && !(start == end && |elems| == 1) {
      SilentCounts(elems, expected);
    }
  }

  lemma SilentCounts(elems: seq<int>, expected: set<int>)
    requires expected - Elements(elems) == {} && Elements(elems) - expected == {} && Repeated(elems) == {}
    ensures multiset(elems) == multiset(expected)
  {
    forall x
      ensures multiset(elems)[x] == multiset(expected)[x]
    {
      assert x in elems <==> x in multiset(elems);
      assert x in expected <==> x in Elements(elems);
      assert x !in Repeated(elems);
    }
  }

  /** The values that an error holds. */
  ghost predicate Holds(elems: seq<int>, start: int, end: int, e: GapError) {
    match e
    case Missing(values) => forall x :: x in values <==> start <= x <= end && x !in elems
    case Unexpected(values) => forall x :: x in values <==> x in elems && !(start <= x <= end)
    case Duplicate(values) => forall x :: x in values <==> multiset(elems)[x] >= 2
  }

  /** Missing values are reported before unexpected ones, and these before duplicates. */
  function Rank(e: GapError): nat {
    match e
    case Missing(_) => 0
    case Unexpected(_) => 1
    case Duplicate(_) => 2
  }

  /** The list of errors for three sets of values. */
  ghost predicate Lists(errors: seq<GapError>, missing: set<int>, extras: set<int>, repeated: set<int>) {
    && (forall e :: e in errors <==>
          || (e == Missing(missing) && missing != {})
          || (e == Unexpected(extras) && extras != {})
          || (e == Duplicate(repeated) && repeated != {}))
    && forall i, j :: 0 <= i < j < |errors| ==> Rank(errors[i]) < Rank(errors[j])
  }

  lemma ErrorsListed(missing: set<int>, extras: set<int>, repeated: set<int>)
    ensures Lists((if missing != {} then [Missing(missing)] else []) +
                  (if extras != {} then [Unexpected(extras)] else []) +
                  (if repeated != {} then [Duplicate(repeated)] else []),
                  missing, extras, repeated)
  {
  }

  /** The values concerned. */
  ghost function MissingValues(elems: seq<int>, start: int, end: int): set<int> {
    set x | start <= x <= end && x !in elems
  }

  ghost function UnexpectedValues(elems: seq<int>, start: int, end: int): set<int> {
    set x | x in elems && !(start <= x <= end)
  }

  ghost function RepeatedValues(elems: seq<int>): set<int> {
    set x | x in elems && multiset(elems)[x] >= 2
  }

  /** Unless the shortcut applies, each kind of error is reported once if there is something to report, in order,
      and with exactly its values. */
  lemma GapContents(elems: seq<int>, start: int, end: int)
    requires !(start == end && |elems| == 1)
    ensures Lists(GapErrors(elems, start, end), MissingValues(elems, start, end), UnexpectedValues(elems, start, end),
                  RepeatedValues(elems))
  {
    hide Lists;
    var missing, extras := Range(start, end) - Elements(elems), Elements(elems) - Range(start, end);
    ErrorsListed(missing, extras, Repeated(elems));
    assert missing == MissingValues(elems, start, end) by {
      assert forall x :: start <= x <= end ==> Between(start, x, end);
    }
    assert extras == UnexpectedValues(elems, start, end);
    assert Repeated(elems) == RepeatedValues(elems);
  }

  /** The shortcut for one element accepts a wrong one. */
  lemma SingletonIsNotCompared()
    ensures GapErrors([5], 0, 0) == [] && !Compact([5], 0, 0)
  {
    assert 5 in multiset([5]) && 5 !in multiset(Range(0, 0));
  }

  // ------------------------------------------------------------ sorting

  /** Before the first row of an equal or larger index: the place of a row that came earlier. */
  function Insert(x: DerivationPath, rows: seq<DerivationPath>): seq<DerivationPath> {
    if rows == [] || x.derivationIndex <= rows[0].derivationIndex then [x] + rows
    else [rows[0]] + Insert(x, rows[1..])
  }

  /** `sorted(rows, key=derivation_index)`. */
  function SortRows(rows: seq<DerivationPath>): seq<DerivationPath> {
    if rows == [] then [] else Insert(rows[0], SortRows(rows[1..]))
  }

  ghost predicate SortedRows(rows: seq<DerivationPath>) {
    forall i, j :: 0 <= i < j < |rows| ==> rows[i].derivationIndex <= rows[j].derivationIndex
  }

  function WithIndex(rows: seq<DerivationPath>, k: int): seq<DerivationPath> {
    if rows == [] then [] else (if rows[0].derivationIndex == k then [rows[0]] else []) + WithIndex(rows[1..], k)
  }

  lemma {:induction false} InsertElements(x: DerivationPath, rows: seq<DerivationPath>)
    ensures multiset(Insert(x, rows)) == multiset{x} + multiset(rows)
    ensures forall y :: y in Insert(x, rows) <==> y == x || y in rows
  {
    if !(rows == [] || x.derivationIndex <= rows[0].derivationIndex) {
      InsertElements(x, rows[1..]);
      assert rows == [rows[0]] + rows[1..];
    }
  }

  lemma {:induction false} InsertSorted(x: DerivationPath, rows: seq<DerivationPath>)
    requires SortedRows(rows)
    ensures SortedRows(Insert(x, rows))
  {
    if !(rows == [] || x.derivationIndex <= rows[0].derivationIndex) {
      var tail := Insert(x, rows[1..]);
      InsertSorted(x, rows[1..]);
      InsertElements(x, rows[1..]);
      forall i | 0 <= i < |tail|
        ensures rows[0].derivationIndex <= tail[i].derivationIndex
      {
        assert tail[i] in tail;
      }
    }
  }

  lemma WithIndexCons(x: DerivationPath, rows: seq<DerivationPath>, k: int)
    ensures WithIndex([x] + rows, k) == if x.derivationIndex == k then [x] + WithIndex(rows, k) else WithIndex(rows, k)
  {
    assert ([x] + rows)[1..] == rows;
  }

  lemma {:induction false} InsertWithIndex(x: DerivationPath, rows: seq<DerivationPath>, k: int)
    ensures WithIndex(Insert(x, rows), k) ==
            if x.derivationIndex == k then [x] + WithIndex(rows, k) else WithIndex(rows, k)
  {
    hide WithIndex;
    if rows == [] || x.derivationIndex <= rows[0].derivationIndex {
      WithIndexCons(x, rows, k);
    } else {
      InsertWithIndex(x, rows[1..], k);
      WithIndexCons(rows[0], Insert(x, rows[1..]), k);
      WithIndexCons(rows[0], rows[1..], k);
      assert [rows[0]] + rows[1..] == rows;
    }
  }

  lemma InsertIsStable(rows: seq<DerivationPath>, tail: seq<DerivationPath>)
    requires rows != [] && SortedRows(tail) && multiset(tail) == multiset(rows[1..])
    requires (forall y :: y in tail <==> y in rows[1..]) && forall k :: WithIndex(tail, k) == WithIndex(rows[1..], k)
    ensures SortedRows(Insert(rows[0], tail)) && multiset(Insert(rows[0], tail)) == multiset(rows)
    ensures forall y :: y in Insert(rows[0], tail) <==> y in rows
    ensures forall k :: WithIndex(Insert(rows[0], tail), k) == WithIndex(rows, k)
  {
    hide SortedRows, WithIndex, Insert;
    InsertElements(rows[0], tail);
    InsertSorted(rows[0], tail);
    assert rows == [rows[0]] + rows[1..];
    forall k
      ensures WithIndex(Insert(rows[0], tail), k) == WithIndex(rows, k)
    {
      InsertWithIndex(rows[0], tail, k);
      WithIndexCons(rows[0], rows[1..], k);
    }
  }

  /** The sort is a stable one: sorted, and rows of equal index keep their order. */
  lemma {:induction false} SortIsStable(rows: seq<DerivationPath>)
    ensures SortedRows(SortRows(rows)) && multiset(SortRows(rows)) == multiset(rows)
    ensures forall y :: y in SortRows(rows) <==> y in rows
    ensures forall k :: WithIndex(SortRows(rows), k) == WithIndex(rows, k)
  {
    if rows != [] {
      SortIsStable(rows[1..]);
      hide SortedRows, WithIndex;
      InsertIsStable(rows, SortRows(rows[1..]));
    }
  }

  // ------------------------------------------------------------ compact derivations

  function InsertInt(x: int, s: seq<int>): seq<int> {
    if s == [] || x <= s[0] then [x] + s else [s[0]] + InsertInt(x, s[1..])
  }

  /** `list.sort()` on integers. */
  function SortInts(s: seq<int>): seq<int> {
    if s == [] then [] else InsertInt(s[0], SortInts(s[1..]))
  }

  ghost predicate SortedInts(s: seq<int>) {
    forall i, j :: 0 <= i < j < |s| ==> s[i] <= s[j]
  }

  lemma {:induction false} InsertIntElements(x: int, s: seq<int>)
    ensures multiset(InsertInt(x, s)) == multiset{x} + multiset(s)
    ensures |InsertInt(x, s)| == |s| + 1
    ensures forall y :: y in InsertInt(x, s) <==> y == x || y in s
  {
    if s != [] && x > s[0] {
      InsertIntElements(x, s[1..]);
      assert s == [s[0]] + s[1..];
    }
  }

  lemma {:induction false} InsertIntSorted(x: int, s: seq<int>)
    requires SortedInts(s)
    ensures SortedInts(InsertInt(x, s))
  {
    if s != [] && x > s[0] {
      var tail := InsertInt(x, s[1..]);
      InsertIntSorted(x, s[1..]);
      InsertIntElements(x, s[1..]);
      forall i | 0 <= i < |tail|
        ensures s[0] <= tail[i]
      {
        assert tail[i] in tail;
      }
    }
  }

  lemma {:induction false} SortIntsKeeps(s: seq<int>)
    ensures SortedInts(SortInts(s)) && multiset(SortInts(s)) == multiset(s) && |SortInts(s)| == |s|
    ensures forall y :: y in SortInts(s) <==> y in s
  {
    if s != [] {
      SortIntsKeeps(s[1..]);
      InsertIntElements(s[0], SortInts(s[1..]));
      InsertIntSorted(s[0], SortInts(s[1..]));
      assert s == [s[0]] + s[1..];
    }
  }

  /** A reported gap with the wallet and the hardened flag it is about. */
  datatype Located = Located(walletId: int, hardened: int, error: GapError)

  /** The derivation indexes of one wallet and flag, in table order. */
  function Indexes(paths: seq<DerivationPath>, walletId: int, hardened: int): seq<int> {
    if paths == [] then []
    else
      var p := paths[0];
      (if p.walletId == walletId && p.hardened == hardened then [p.derivationIndex] else [])
        + Indexes(paths[1..], walletId, hardened)
  }

  function Locate(walletId: int, hardened: int, errors: seq<GapError>): seq<Located> {
    seq(|errors|, i requires 0 <= i < |errors| => Located(walletId, hardened, errors[i]))
  }

  type Report = Result<seq<Located>, Raised>

  /** What the check says of one wallet and flag. */
  function GroupErrors(paths: seq<DerivationPath>, walletId: int, hardened: int): Report {
    var sorted := SortInts(Indexes(paths, walletId, hardened));
    if sorted == [] then Ok([])
    else
      var max := sorted[|sorted| - 1];
      if 0 > max then Err(ValueError) else Ok(Locate(walletId, hardened, GapErrors(sorted, 0, max)))
  }

  function Then(first: Report, second: Report): Report {
    if first.Err? then first else if second.Err? then second else Ok(first.value + second.value)
  }

  /** The report so far, extended by the first n values of the hardened flag. */
  function Flags(before: Report, paths: seq<DerivationPath>, walletId: int, n: nat): Report {
    if n == 0 then before else Then(Flags(before, paths, walletId, n - 1), GroupErrors(paths, walletId, n - 1))
  }

  lemma BothFlags(before: Report, paths: seq<DerivationPath>, walletId: int)
    ensures Flags(before, paths, walletId, 1) == Then(before, GroupErrors(paths, walletId, 0))
    ensures Flags(before, paths, walletId, 2) == Then(Then(before, GroupErrors(paths, walletId, 0)),
                                                      GroupErrors(paths, walletId, 1))
  {
    hide GroupErrors, Then;
    assert Flags(before, paths, walletId, 0) == before;
    assert Flags(before, paths, walletId, 1) == Then(before, GroupErrors(paths, walletId, 0));
  }

  function CompactErrors(walletIds: seq<int>, paths: seq<DerivationPath>): Report {
    if walletIds == [] then Ok([])
    else
      var w := walletIds[|walletIds| - 1];
      Flags(CompactErrors(walletIds[..|walletIds| - 1], paths), paths, w, 2)
  }

  method CheckDerivationsAreCompact(walletIds: seq<int>, paths: seq<DerivationPath>) returns (r: Report)
    ensures r == CompactErrors(walletIds, paths)
  {
    hide GapErrors, Indexes, SortInts;
    var errors: seq<Located> := [];
    for i := 0 to |walletIds|
      invariant CompactErrors(walletIds[..i], paths) == Ok(errors)
    {
      var walletId := walletIds[i];
      assert walletIds[..i + 1][..i] == walletIds[..i];
      FailsEarly(walletIds, i, paths);
      var before := errors;
      BothFlags(Ok(before), paths, walletId);
      for hardened := 0 to 2
        invariant Ok(errors) == Flags(Ok(before), paths, walletId, hardened)
      {
        var dpi := SortInts(Indexes(paths, walletId, hardened));
        if |dpi| < 1 {
          assert errors == errors + [];
          continue;
        }
        var maxId := dpi[|dpi| - 1];
        var found := CheckForGaps(dpi, 0, maxId);
        if found.Err? {
          return Err(found.error);
        }
        errors := errors + Locate(walletId, hardened, found.value);
      }
    }
    assert walletIds[..|walletIds|] == walletIds;
    return Ok(errors);
  }

  /** A raise in some wallet ends the whole check. */
  lemma {:induction false} FailsEarly(walletIds: seq<int>, i: nat, paths: seq<DerivationPath>)
    requires i < |walletIds|
    ensures CompactErrors(walletIds[..i + 1], paths).Err? ==>
            CompactErrors(walletIds, paths) == CompactErrors(walletIds[..i + 1], paths)
    decreases |walletIds|
  {
    if i + 1 == |walletIds| {
      assert walletIds[..i + 1] == walletIds;
    } else {
      var init := walletIds[..|walletIds| - 1];
      FailsEarly(init, i, paths);
      BothFlags(CompactErrors(init, paths), paths, walletIds[|walletIds| - 1]);
      assert init[..i + 1] == walletIds[..i + 1];
    }
  }

  // ------------------------------------------------------------ its verdict

  lemma {:induction false} RangeSize(start: int, end: int)
    requires start <= end + 1
    ensures |Range(start, end)| == end + 1 - start
    decreases end - start
  {
    if start == end + 1 {
      assert Range(start, end) == {};
    } else {
      RangeSize(start, end - 1);
      assert Range(start, end) == Range(start, end - 1) + {end};
    }
  }

  lemma CompactMembers(elems: seq<int>, start: int, end: int, x: int)
    requires Compact(elems, start, end)
    ensures x in elems <==> start <= x <= end
  {
    assert x in elems <==> x in multiset(elems);
    assert x in Range(start, end) <==> x in multiset(Range(start, end));
  }

  /** Pigeonhole: no gap up to the maximum is the same as being a permutation of 0..n-1. */
  lemma CompactToMax(elems: seq<int>, max: int)
    requires elems != [] && max in elems && forall x :: x in elems ==> x <= max
    ensures 0 <= max && Compact(elems, 0, max) <==> Compact(elems, 0, |elems| - 1)
  {
    var n := |elems|;
    if 0 <= max && Compact(elems, 0, max) {
      RangeSize(0, max);
      assert n == |multiset(elems)| == |multiset(Range(0, max))|;
    }
    if Compact(elems, 0, n - 1) {
      CompactMembers(elems, 0, n - 1, n - 1);
      CompactMembers(elems, 0, n - 1, max);
    }
  }

  lemma SameMultisetCompact(a: seq<int>, b: seq<int>, start: int, end: int)
    requires multiset(a) == multiset(b)
    ensures Compact(a, start, end) <==> Compact(b, start, end)
  {
  }

  ghost predicate AllNegative(paths: seq<DerivationPath>, walletId: int, hardened: int) {
    Indexes(paths, walletId, hardened) != [] && forall x :: x in Indexes(paths, walletId, hardened) ==> x < 0
  }

  ghost predicate Permutation(paths: seq<DerivationPath>, walletId: int, hardened: int) {
    var indexes := Indexes(paths, walletId, hardened);
    Compact(indexes, 0, |indexes| - 1)
  }

  lemma GroupVerdict(paths: seq<DerivationPath>, walletId: int, hardened: int)
    ensures GroupErrors(paths, walletId, hardened).Err? <==> AllNegative(paths, walletId, hardened)
    ensures GroupErrors(paths, walletId, hardened) == Ok([]) <==> Permutation(paths, walletId, hardened)
  {
    hide GapErrors, Indexes, SortInts;
    var indexes := Indexes(paths, walletId, hardened);
    var sorted := SortInts(indexes);
    SortIntsKeeps(indexes);
    if sorted == [] {
      assert Range(0, -1) == {};
    } else {
      var max := sorted[|sorted| - 1];
      assert max in indexes;
      assert forall x :: x in indexes ==> x in sorted && x <= max;
      CompactToMax(indexes, max);
      SameMultisetCompact(sorted, indexes, 0, max);
      GapVerdict(sorted, 0, max);
      LocateEmpty(walletId, hardened, GapErrors(sorted, 0, max));
      if max == 0 && |sorted| == 1 {
        assert sorted == [0];
        OnlyZero(sorted);
      }
    }
  }

  lemma LocateEmpty(walletId: int, hardened: int, errors: seq<GapError>)
    ensures Locate(walletId, hardened, errors) == [] <==> errors == []
  {
    assert |Locate(walletId, hardened, errors)| == |errors|;
  }

  lemma OnlyZero(s: seq<int>)
    requires s == [0]
    ensures Compact(s, 0, 0)
  {
    assert Range(0, 0) == {0};
  }

  /** The command raises iff some wallet and flag has derivations but only negative indexes, and is silent iff
      the indexes of every wallet and flag are a permutation of 0..n-1. */
  lemma {:induction false} CompactVerdict(walletIds: seq<int>, paths: seq<DerivationPath>)
    ensures CompactErrors(walletIds, paths).Err? <==>
            exists w, h :: w in walletIds && 0 <= h <= 1 && AllNegative(paths, w, h)
    ensures CompactErrors(walletIds, paths) == Ok([]) <==>
            forall w, h :: w in walletIds && 0 <= h <= 1 ==> Permutation(paths, w, h)
    decreases |walletIds|
  {
    hide GroupErrors, AllNegative, Permutation;
    if walletIds != [] {
      var init, w := walletIds[..|walletIds| - 1], walletIds[|walletIds| - 1];
      CompactVerdict(init, paths);
      GroupVerdict(paths, w, 0);
      GroupVerdict(paths, w, 1);
      assert walletIds == init + [w];
      assert forall v :: v in walletIds <==> v in init || v == w;
      BothFlags(CompactErrors(init, paths), paths, w);
    }
  }

  // ------------------------------------------------------------ the same verdict, told of the table

  /** Row i belongs to the wallet and flag and has the derivation index x. */
  ghost predicate RowAt(paths: seq<DerivationPath>, i: int, walletId: int, hardened: int, x: int) {
    0 <= i < |paths| && paths[i].walletId == walletId && paths[i].hardened == hardened && paths[i].derivationIndex == x
  }

  ghost predicate HasRow(paths: seq<DerivationPath>, walletId: int, hardened: int, x: int) {
    exists i :: RowAt(paths, i, walletId, hardened, x)
  }

  ghost predicate HasTwoRows(paths: seq<DerivationPath>, walletId: int, hardened: int, x: int) {
    exists i, j :: i < j && RowAt(paths, i, walletId, hardened, x) && RowAt(paths, j, walletId, hardened, x)
  }

  /** The derivation indexes are counted from 0 up, each once. */
  ghost predicate Numbered(paths: seq<DerivationPath>, walletId: int, hardened: int) {
    && (forall x :: HasRow(paths, walletId, hardened, x) ==> 0 <= x)
    && (forall x, y :: 0 <= y < x && HasRow(paths, walletId, hardened, x) ==> HasRow(paths, walletId, hardened, y))
    && forall x :: !HasTwoRows(paths, walletId, hardened, x)
  }

  ghost predicate OnlyNegative(paths: seq<DerivationPath>, walletId: int, hardened: int) {
    && (exists x :: HasRow(paths, walletId, hardened, x))
    && forall x :: HasRow(paths, walletId, hardened, x) ==> x < 0
  }

  lemma RowAtCons(paths: seq<DerivationPath>, w: int, h: int, x: int)
    requires paths != []
    ensures HasRow(paths, w, h, x) <==> RowAt(paths, 0, w, h, x) || HasRow(paths[1..], w, h, x)
    ensures HasTwoRows(paths, w, h, x) <==>
            (RowAt(paths, 0, w, h, x) && HasRow(paths[1..], w, h, x)) || HasTwoRows(paths[1..], w, h, x)
  {
    var rest := paths[1..];
    assert forall i :: RowAt(rest, i, w, h, x) <==> i >= 0 && RowAt(paths, i + 1, w, h, x);
    if i :| RowAt(paths, i, w, h, x) && i > 0 {
      assert RowAt(rest, i - 1, w, h, x);
    }
    if i, j :| i < j && RowAt(paths, i, w, h, x) && RowAt(paths, j, w, h, x) {
      assert RowAt(rest, j - 1, w, h, x);
      assert i > 0 ==> RowAt(rest, i - 1, w, h, x);
    }
    if i, j :| i < j && RowAt(rest, i, w, h, x) && RowAt(rest, j, w, h, x) {
      assert RowAt(paths, i + 1, w, h, x) && RowAt(paths, j + 1, w, h, x);
    }
    if i :| RowAt(rest, i, w, h, x) {
      assert RowAt(paths, i + 1, w, h, x);
    }
  }

  lemma {:induction false} IndexesInTable(paths: seq<DerivationPath>, w: int, h: int, x: int)
    ensures x in Indexes(paths, w, h) <==> HasRow(paths, w, h, x)
    ensures multiset(Indexes(paths, w, h))[x] >= 2 <==> HasTwoRows(paths, w, h, x)
    decreases |paths|
  {
    var all := Indexes(paths, w, h);
    if paths != [] {
      var rest := Indexes(paths[1..], w, h);
      IndexesInTable(paths[1..], w, h, x);
      RowAtCons(paths, w, h, x);
      hide HasRow, HasTwoRows, Indexes;
      var head := if paths[0].walletId == w && paths[0].hardened == h then [paths[0].derivationIndex] else [];
      IndexesCons(paths, w, h);
      assert multiset(head + rest) == multiset(head) + multiset(rest);
      assert x in rest <==> x in multiset(rest);
    }
  }

  lemma IndexesCons(paths: seq<DerivationPath>, w: int, h: int)
    requires paths != []
    ensures Indexes(paths, w, h) ==
            (if paths[0].walletId == w && paths[0].hardened == h then [paths[0].derivationIndex] else [])
            + Indexes(paths[1..], w, h)
  {
  }

  /** Once each, from 0 to the largest. */
  lemma CompactIff(elems: seq<int>, max: int)
    requires max in elems && forall x :: x in elems ==> x <= max
    ensures Compact(elems, 0, max) <==>
            && (forall x :: x in elems ==> 0 <= x)
            && (forall x, y :: 0 <= y < x && x in elems ==> y in elems)
            && forall x :: multiset(elems)[x] <= 1
  {
    var range := Range(0, max);
    forall x
      ensures x in range <==> 0 <= x <= max
      ensures multiset(range)[x] == if 0 <= x <= max then 1 else 0
      ensures x in elems <==> multiset(elems)[x] > 0
    {
      assert 0 <= x <= max ==> Between(0, x, max);
      assert x in elems <==> x in multiset(elems);
    }
    if Compact(elems, 0, max) {
      assert forall x :: multiset(elems)[x] == multiset(range)[x];
    }
    if (forall x :: x in elems ==> 0 <= x) && (forall x, y :: 0 <= y < x && x in elems ==> y in elems) &&
       (forall x :: multiset(elems)[x] <= 1) {
      assert forall x :: multiset(elems)[x] == multiset(range)[x];
      assert multiset(elems) == multiset(range);
    }
  }

  lemma {:induction false} Largest(elems: seq<int>) returns (max: int)
    requires elems != []
    ensures max in elems && forall x :: x in elems ==> x <= max
    decreases |elems|
  {
    if |elems| == 1 {
      max := elems[0];
    } else {
      max := Largest(elems[1..]);
      assert elems == [elems[0]] + elems[1..];
      if max < elems[0] {
        max := elems[0];
      }
    }
  }

  lemma PermutationInTable(paths: seq<DerivationPath>, w: int, h: int)
    ensures Permutation(paths, w, h) <==> Numbered(paths, w, h)
    ensures AllNegative(paths, w, h) <==> OnlyNegative(paths, w, h)
  {
    hide Indexes, HasRow, HasTwoRows, Compact;
    var elems := Indexes(paths, w, h);
    forall x
      ensures x in elems <==> HasRow(paths, w, h, x)
      ensures multiset(elems)[x] >= 2 <==> HasTwoRows(paths, w, h, x)
    {
      IndexesInTable(paths, w, h, x);
    }
    assert elems != [] ==> elems[0] in elems;
    if elems == [] {
      NothingCompact();
    } else {
      var max := Largest(elems);
      CompactToMax(elems, max);
      CompactIff(elems, max);
    }
  }

  lemma NothingCompact()
    ensures Compact([], 0, -1)
  {
    assert Range(0, -1) == {};
  }

  /** The command raises iff some wallet and flag has rows but only negative indexes, and is silent iff the indexes
      of every wallet and flag are counted from 0 up, each once. */
  lemma CompactInTable(walletIds: seq<int>, paths: seq<DerivationPath>)
    ensures CompactErrors(walletIds, paths).Err? <==>
            exists w, h :: w in walletIds && 0 <= h <= 1 && OnlyNegative(paths, w, h)
    ensures CompactErrors(walletIds, paths) == Ok([]) <==>
            forall w, h :: w in walletIds && 0 <= h <= 1 ==> Numbered(paths, w, h)
  {
    hide CompactErrors, Permutation, AllNegative, Numbered, OnlyNegative;
    CompactVerdict(walletIds, paths);
    forall w, h
      ensures Permutation(paths, w, h) <==> Numbered(paths, w, h)
      ensures AllNegative(paths, w, h) <==> OnlyNegative(paths, w, h)
    {
      PermutationInTable(paths, w, h);
    }
  }

  /** The values of a reported gap, told of the table. */
  ghost predicate GapInTable(paths: seq<DerivationPath>, w: int, h: int, e: GapError) {
    match e
    case Missing(values) =>
      forall x :: x in values <==> 0 <= x && !HasRow(paths, w, h, x) && exists y :: y > x && HasRow(paths, w, h, y)
    case Unexpected(values) => forall x :: x in values <==> x < 0 && HasRow(paths, w, h, x)
    case Duplicate(values) => forall x :: x in values <==> HasTwoRows(paths, w, h, x)
  }

  lemma GroupContents(paths: seq<DerivationPath>, w: int, h: int, e: Located)
    requires GroupErrors(paths, w, h).Ok? && e in GroupErrors(paths, w, h).value
    ensures e.walletId == w && e.hardened == h && GapInTable(paths, w, h, e.error)
  {
    hide Indexes, HasRow, HasTwoRows, SortInts, GapErrors;
    var elems := Indexes(paths, w, h);
    var sorted := SortInts(elems);
    SortIntsKeeps(elems);
    var max := sorted[|sorted| - 1];
    GapFound(sorted, max, e.error);
    forall x
      ensures x in elems <==> HasRow(paths, w, h, x)
      ensures multiset(elems)[x] >= 2 <==> HasTwoRows(paths, w, h, x)
    {
      IndexesInTable(paths, w, h, x);
    }
    assert max in elems && forall x :: x in elems ==> x in sorted && x <= max;
  }

  lemma GapFound(sorted: seq<int>, max: int, e: GapError)
    requires e in GapErrors(sorted, 0, max)
    ensures Holds(sorted, 0, max, e)
  {
    if !(0 == max && |sorted| == 1) {
      GapContents(sorted, 0, max);
    }
    assert forall x :: multiset(sorted)[x] >= 2 ==> x in multiset(sorted);
  }

  /** Every gap that is reported is one of its wallet and flag, with exactly the values concerned. */
  lemma {:induction false} ReportedGaps(walletIds: seq<int>, paths: seq<DerivationPath>, e: Located)
    requires CompactErrors(walletIds, paths).Ok? && e in CompactErrors(walletIds, paths).value
    ensures e.walletId in walletIds && 0 <= e.hardened <= 1
    ensures GapInTable(paths, e.walletId, e.hardened, e.error)
    decreases |walletIds|
  {
    hide GroupErrors, GapInTable;
    var init, w := walletIds[..|walletIds| - 1], walletIds[|walletIds| - 1];
    BothFlags(CompactErrors(init, paths), paths, w);
    assert walletIds == init + [w];
    if e in GroupErrors(paths, w, 0).value {
      GroupContents(paths, w, 0, e);
    } else if e in GroupErrors(paths, w, 1).value {
      GroupContents(paths, w, 1, e);
    } else {
      ReportedGaps(init, paths, e);
    }
  }

  /** A value that some error of its kind should hold. */
  ghost predicate Concerns(paths: seq<DerivationPath>, w: int, h: int, kind: nat, x: int) {
    if kind == 0 then 0 <= x && !HasRow(paths, w, h, x) && exists y :: y > x && HasRow(paths, w, h, y)
    else if kind == 1 then x < 0 && HasRow(paths, w, h, x)
    else HasTwoRows(paths, w, h, x)
  }

  ghost predicate Names(errors: seq<Located>, w: int, h: int, kind: nat, x: int) {
    exists e :: e in errors && e.walletId == w && e.hardened == h && Rank(e.error) == kind && x in e.error.values
  }

  lemma GroupComplete(paths: seq<DerivationPath>, w: int, h: int, kind: nat, x: int)
    requires GroupErrors(paths, w, h).Ok? && kind < 3 && Concerns(paths, w, h, kind, x)
    ensures Names(GroupErrors(paths, w, h).value, w, h, kind, x)
  {
    hide Indexes, HasRow, HasTwoRows, SortInts, GapErrors, Compact;
    var elems := Indexes(paths, w, h);
    var sorted := SortInts(elems);
    SortIntsKeeps(elems);
    forall y
      ensures y in sorted <==> HasRow(paths, w, h, y)
      ensures multiset(sorted)[y] >= 2 <==> HasTwoRows(paths, w, h, y)
    {
      IndexesInTable(paths, w, h, y);
    }
    assert multiset(sorted)[x] >= 2 ==> x in multiset(sorted);
    assert sorted != [];
    var max := sorted[|sorted| - 1];
    assert max in sorted && forall y :: y in sorted ==> y <= max;
    var e := ErrorFor(sorted, max, kind, x);
    var errors := GapErrors(sorted, 0, max);
    var i :| 0 <= i < |errors| && errors[i] == e;
    assert Locate(w, h, errors)[i] == Located(w, h, e);
  }

  lemma OneElement(s: seq<int>, x: int)
    ensures |s| == 1 ==> multiset(s)[x] <= 1 && (x in s ==> x == s[0])
  {
    assert |s| == 1 ==> s == [s[0]];
  }

  lemma ErrorFor(sorted: seq<int>, max: int, kind: nat, x: int) returns (e: GapError)
    requires kind < 3 && max in sorted && forall y :: y in sorted ==> y <= max
    requires kind == 0 ==> 0 <= x < max && x !in sorted
    requires kind == 1 ==> x < 0 && x in sorted
    requires kind == 2 ==> multiset(sorted)[x] >= 2
    requires max >= 0
    ensures e in GapErrors(sorted, 0, max) && Rank(e) == kind && x in e.values
  {
    hide GapErrors, Compact;
    OneElement(sorted, x);
    GapContents(sorted, 0, max);
    assert multiset(sorted)[x] >= 2 ==> x in multiset(sorted);
    var missing, extras := MissingValues(sorted, 0, max), UnexpectedValues(sorted, 0, max);
    if kind == 0 {
      assert x in missing;
      e := Missing(missing);
    } else if kind == 1 {
      assert x in extras;
      e := Unexpected(extras);
    } else {
      assert x in RepeatedValues(sorted);
      e := Duplicate(RepeatedValues(sorted));
    }
  }

  lemma NamesMore(a: seq<Located>, b: seq<Located>, w: int, h: int, kind: nat, x: int)
    requires Names(a, w, h, kind, x) || Names(b, w, h, kind, x)
    ensures Names(a + b, w, h, kind, x)
  {
    var e :| (e in a || e in b) && e.walletId == w && e.hardened == h && Rank(e.error) == kind && x in e.error.values;
    assert e in a + b;
  }

  /** Conversely, every value concerned is in a reported gap of its kind. */
  lemma {:induction false} EveryGapReported(walletIds: seq<int>, paths: seq<DerivationPath>, w: int, h: int, kind: nat,
                                            x: int)
    requires CompactErrors(walletIds, paths).Ok? && w in walletIds && 0 <= h <= 1
    requires kind < 3 && Concerns(paths, w, h, kind, x)
    ensures Names(CompactErrors(walletIds, paths).value, w, h, kind, x)
    decreases |walletIds|
  {
    hide GroupErrors, Concerns, Names;
    var init, last := walletIds[..|walletIds| - 1], walletIds[|walletIds| - 1];
    BothFlags(CompactErrors(init, paths), paths, last);
    assert walletIds == init + [last];
    var before := CompactErrors(init, paths).value;
    var zero, one := GroupErrors(paths, last, 0).value, GroupErrors(paths, last, 1).value;
    if w == last {
      GroupComplete(paths, w, h, kind, x);
    } else {
      EveryGapReported(init, paths, w, h, kind, x);
    }
    if h == 0 || w != last {
      NamesMore(before, zero, w, h, kind, x);
    }
    NamesMore(before + zero, one, w, h, kind, x);
  }

  // ------------------------------------------------------------ used before unused

  datatype UsedError = BadValues(walletId: int, values: set<int>) | UsedAfterUnused(walletId: int, derivationIndex: int)

  /** The rows of one wallet, in table order. */
  function Rows(paths: seq<DerivationPath>, walletId: int): seq<DerivationPath> {
    if paths == [] then []
    else
      Rows(paths[..|paths| - 1], walletId) +
      if paths[|paths| - 1].walletId == walletId then [paths[|paths| - 1]] else []
  }

  /** The wallets in order of first appearance, the order of the dictionary. */
  function FirstSeen(paths: seq<DerivationPath>): seq<int> {
    if paths == [] then []
    else
      var before := FirstSeen(paths[..|paths| - 1]);
      if paths[|paths| - 1].walletId in before then before else before + [paths[|paths| - 1].walletId]
  }

  method DpByWalletId(paths: seq<DerivationPath>) returns (order: seq<int>, d: map<int, seq<DerivationPath>>)
    ensures order == FirstSeen(paths) && d.Keys == set w | w in order
    ensures forall w :: w in d ==> d[w] == SortRows(Rows(paths, w))
  {
    hide SortRows, Rows, FirstSeen, Grouped;
    order, d := [], map[];
    NothingGrouped();
    for k := 0 to |paths|
      invariant Grouped(order, d, paths[..k])
    {
      var w := paths[k].walletId;
      GroupOne(order, d, paths[..k], paths[k]);
      assert paths[..k + 1] == paths[..k] + [paths[k]];
      if w !in d {
        order := order + [w];
        d := d[w := []];
      }
      d := d[w := d[w] + [paths[k]]];
    }
    assert paths[..|paths|] == paths;
    d := SortGroups(order, d, paths);
  }

  /** The loop that replaces each list by its sorted version. */
  method SortGroups(order: seq<int>, groups: map<int, seq<DerivationPath>>, ghost paths: seq<DerivationPath>)
    returns (d: map<int, seq<DerivationPath>>)
    requires Grouped(order, groups, paths)
    ensures order == FirstSeen(paths) && d.Keys == set w | w in order
    ensures forall w :: w in d ==> d[w] == SortRows(Rows(paths, w))
  {
    hide SortRows, Rows, FirstSeen;
    d := groups;
    SeenOnce(paths);
    for i := 0 to |order|
      invariant d.Keys == set w | w in order
      invariant forall j :: 0 <= j < i ==> d[order[j]] == SortRows(Rows(paths, order[j]))
      invariant forall j :: i <= j < |order| ==> d[order[j]] == Rows(paths, order[j])
    {
      d := d[order[i] := SortRows(d[order[i]])];
    }
  }

  ghost predicate Grouped(order: seq<int>, d: map<int, seq<DerivationPath>>, paths: seq<DerivationPath>) {
    && order == FirstSeen(paths)
    && d.Keys == (set w | w in order)
    && (forall w :: w in d ==> d[w] == Rows(paths, w))
    && (forall w :: w !in d ==> Rows(paths, w) == [])
  }

  lemma NothingGrouped()
    ensures Grouped([], map[], [])
  {
  }

  lemma GroupOne(order: seq<int>, d: map<int, seq<DerivationPath>>, paths: seq<DerivationPath>, p: DerivationPath)
    requires Grouped(order, d, paths)
    ensures p.walletId in d ==> Grouped(order, d[p.walletId := d[p.walletId] + [p]], paths + [p])
    ensures p.walletId !in d ==> Grouped(order + [p.walletId], d[p.walletId := []][p.walletId := [] + [p]], paths + [p])
  {
    hide Rows, FirstSeen;
    var w := p.walletId;
    AppendRow(paths, p);
    if w in d {
      assert d[w := d[w] + [p]].Keys == d.Keys;
    } else {
      assert d[w := []][w := [] + [p]].Keys == d.Keys + {w};
    }
  }

  lemma AppendRow(paths: seq<DerivationPath>, p: DerivationPath)
    ensures Rows(paths + [p], p.walletId) == Rows(paths, p.walletId) + [p]
    ensures forall v :: v != p.walletId ==> Rows(paths + [p], v) == Rows(paths, v)
    ensures FirstSeen(paths + [p]) == if p.walletId in FirstSeen(paths) then FirstSeen(paths)
            else FirstSeen(paths) + [p.walletId]
  {
    assert (paths + [p])[..|paths|] == paths;
  }

  lemma {:induction false} SeenOnce(paths: seq<DerivationPath>)
    ensures forall i, j :: 0 <= i < j < |FirstSeen(paths)| ==> FirstSeen(paths)[i] != FirstSeen(paths)[j]
    ensures forall w :: w in FirstSeen(paths) <==> exists i :: 0 <= i < |paths| && paths[i].walletId == w
    decreases |paths|
  {
    if paths != [] {
      var init := paths[..|paths| - 1];
      SeenOnce(init);
      forall w
        ensures w in FirstSeen(paths) <==> exists i :: 0 <= i < |paths| && paths[i].walletId == w
      {
        if w in FirstSeen(init) {
          var i :| 0 <= i < |init| && init[i].walletId == w;
          assert paths[i].walletId == w;
        } else if w != paths[|init|].walletId {
          assert forall i :: 0 <= i < |init| ==> paths[i] == init[i];
        }
      }
    }
  }

  function BadUsed(rows: seq<DerivationPath>): set<int> {
    set p | p in rows && p.used != 0 && p.used != 1 :: p.used
  }

  predicate Late(rows: seq<DerivationPath>, j: nat)
    requires j < |rows|
  {
    rows[j].used == 1 && exists i :: 0 <= i < j && rows[i].used == 0
  }

  /** The first used address with an unused one before it. */
  function FirstLate(rows: seq<DerivationPath>): (r: Option<nat>)
    ensures r.Some? ==> r.value < |rows| && Late(rows, r.value) && forall j :: 0 <= j < r.value ==> !Late(rows, j)
    ensures r.None? ==> forall j :: 0 <= j < |rows| ==> !Late(rows, j)
  {
    if rows == [] then None
    else
      var n := |rows| - 1;
      var before := FirstLate(rows[..n]);
      LatePrefix(rows, n);
      if before.Some? then before else if Late(rows, n) then Some(n) else None
  }

  lemma LatePrefix(rows: seq<DerivationPath>, n: nat)
    requires n <= |rows|
    ensures forall j :: 0 <= j < n ==> (Late(rows[..n], j) <==> Late(rows, j))
  {
    forall j | 0 <= j < n
      ensures Late(rows[..n], j) <==> Late(rows, j)
    {
      assert forall i :: 0 <= i < j ==> rows[..n][i] == rows[i];
      if Late(rows, j) {
        var i :| 0 <= i < j && rows[i].used == 0;
        assert rows[..n][i].used == 0;
      }
    }
  }

  function OrderingErrors(rows: seq<DerivationPath>): seq<UsedError> {
    var late := FirstLate(rows);
    if late.None? then [] else [UsedAfterUnused(rows[late.value].walletId, rows[late.value].derivationIndex)]
  }

  function WalletErrors(walletId: int, rows: seq<DerivationPath>): seq<UsedError> {
    (if BadUsed(rows) != {} then [BadValues(walletId, BadUsed(rows))] else []) + OrderingErrors(rows)
  }

  /** The errors about one wallet of the table. */
  function ErrorsOf(paths: seq<DerivationPath>, walletId: int): seq<UsedError> {
    WalletErrors(walletId, SortRows(Rows(paths, walletId)))
  }

  function UsedErrors(order: seq<int>, paths: seq<DerivationPath>): seq<UsedError> {
    if order == [] then []
    else
      var w := order[|order| - 1];
      UsedErrors(order[..|order| - 1], paths) + ErrorsOf(paths, w)
  }

  /** The pass over the rows of one wallet. */
  method ScanUsed(rows: seq<DerivationPath>) returns (badUsedValues: set<int>, orderingErrors: seq<UsedError>)
    ensures badUsedValues == BadUsed(rows)
    ensures orderingErrors == OrderingErrors(rows)
  {
    var sawUnused := false;
    badUsedValues, orderingErrors := {}, [];
    for k := 0 to |rows|
      invariant sawUnused <==> exists i :: 0 <= i < k && rows[i].used == 0
      invariant badUsedValues == BadUsed(rows[..k])
      invariant orderingErrors == OrderingErrors(rows[..k])
    {
      var dp := rows[k];
      assert rows[..k + 1] == rows[..k] + [dp] && rows[..k + 1][..k] == rows[..k];
      LatePrefix(rows, k + 1);
      if sawUnused && dp.used == 1 && orderingErrors == [] {
        orderingErrors := orderingErrors + [UsedAfterUnused(dp.walletId, dp.derivationIndex)];
      }
      if dp.used == 1 {
      } else if dp.used == 0 {
        sawUnused := true;
      } else {
        badUsedValues := badUsedValues + {dp.used};
      }
    }
    assert rows[..|rows|] == rows;
  }

  method CheckAddressesUsedContiguous(paths: seq<DerivationPath>) returns (errors: seq<UsedError>)
    ensures errors == UsedErrors(FirstSeen(paths), paths)
  {
    hide SortRows, Rows, BadUsed, OrderingErrors;
    errors := [];
    var order, d := DpByWalletId(paths);
    for i := 0 to |order|
      invariant errors == UsedErrors(order[..i], paths)
    {
      var walletId := order[i];
      assert order[..i + 1][..i] == order[..i];
      var badUsedValues, orderingErrors := ScanUsed(d[walletId]);
      if |badUsedValues| > 0 {
        errors := errors + [BadValues(walletId, badUsedValues)];
      }
      if orderingErrors != [] {
        errors := errors + orderingErrors;
      }
    }
    assert order[..|order|] == order;
  }

  // ------------------------------------------------------------ its verdict

  /** A run of ones and then a run of zeros. */
  ghost predicate OnesThenZeros(rows: seq<DerivationPath>) {
    exists k :: 0 <= k <= |rows| && SplitsAt(rows, k)
  }

  ghost predicate SplitsAt(rows: seq<DerivationPath>, k: nat) {
    forall i :: 0 <= i < |rows| ==> rows[i].used == if i < k then 1 else 0
  }

  lemma {:induction false} SilentSplits(rows: seq<DerivationPath>)
    requires BadUsed(rows) == {} && FirstLate(rows).None?
    ensures OnesThenZeros(rows)
    decreases |rows|
  {
    if rows == [] {
      assert SplitsAt(rows, 0);
    } else {
      var n := |rows| - 1;
      var init := rows[..n];
      LatePrefix(rows, n);
      assert forall p :: p in init ==> p in rows;
      assert BadUsed(init) <= BadUsed(rows);
      SilentSplits(init);
      var k :| 0 <= k <= n && SplitsAt(init, k);
      assert forall i :: 0 <= i < n ==> rows[i] == init[i];
      assert rows[n].used == 0 || rows[n].used == 1 by {
        assert rows[n].used !in BadUsed(rows);
      }
      if rows[n].used == 0 {
        assert SplitsAt(rows, k);
      } else {
        assert !Late(rows, n);
        assert k == n by {
          assert k < n ==> rows[k].used == 0;
        }
        assert SplitsAt(rows, n + 1);
      }
    }
  }

  lemma WalletVerdict(walletId: int, rows: seq<DerivationPath>)
    ensures WalletErrors(walletId, rows) == [] <==> OnesThenZeros(rows)
  {
    if WalletErrors(walletId, rows) == [] {
      SilentSplits(rows);
    }
    if OnesThenZeros(rows) {
      var k :| 0 <= k <= |rows| && SplitsAt(rows, k);
      assert BadUsed(rows) == {};
      assert forall j :: 0 <= j < |rows| ==> !Late(rows, j);
    }
  }

  /** The rows of a wallet, sorted by index, read as ones and then zeros. */
  ghost predicate Contiguous(paths: seq<DerivationPath>, walletId: int) {
    OnesThenZeros(SortRows(Rows(paths, walletId)))
  }

  lemma OneWalletSilent(paths: seq<DerivationPath>, walletId: int)
    ensures ErrorsOf(paths, walletId) == [] <==> Contiguous(paths, walletId)
  {
    WalletVerdict(walletId, SortRows(Rows(paths, walletId)));
  }

  lemma EmptyConcat<T>(a: seq<T>, b: seq<T>)
    ensures a + b == [] <==> a == [] && b == []
  {
    assert |a + b| == |a| + |b|;
  }

  lemma {:induction false} AllWalletsSilent(order: seq<int>, paths: seq<DerivationPath>)
    ensures UsedErrors(order, paths) == [] <==> forall w :: w in order ==> Contiguous(paths, w)
    decreases |order|
  {
    hide ErrorsOf, Contiguous;
    if order != [] {
      var init, w := order[..|order| - 1], order[|order| - 1];
      AllWalletsSilent(init, paths);
      OneWalletSilent(paths, w);
      EmptyConcat(UsedErrors(init, paths), ErrorsOf(paths, w));
      assert order == init + [w];
      assert forall v :: v in order <==> v in init || v == w;
    }
  }

  /** Two rows of a wallet, the first one earlier in the table, that end up unused before used. */
  predicate Misplaced(earlier: DerivationPath, later: DerivationPath) {
    || (earlier.used == 0 && later.used == 1 && earlier.derivationIndex <= later.derivationIndex)
    || (earlier.used == 1 && later.used == 0 && later.derivationIndex < earlier.derivationIndex)
  }

  ghost predicate NoneMisplaced(rows: seq<DerivationPath>) {
    forall i, j :: 0 <= i < j < |rows| ==> !Misplaced(rows[i], rows[j])
  }

  ghost predicate NoneLate(rows: seq<DerivationPath>) {
    forall i, j :: 0 <= i < j < |rows| ==> !(rows[i].used == 0 && rows[j].used == 1)
  }

  ghost predicate Fits(x: DerivationPath, rows: seq<DerivationPath>) {
    forall y :: y in rows ==> !Misplaced(x, y)
  }

  lemma {:induction false} InsertLate(x: DerivationPath, rows: seq<DerivationPath>)
    requires SortedRows(rows)
    ensures NoneLate(Insert(x, rows)) <==> NoneLate(rows) && Fits(x, rows)
  {
    hide NoneLate, Fits;
    if rows == [] || x.derivationIndex <= rows[0].derivationIndex {
      InsertFirst(x, rows);
    } else {
      InsertLate(x, rows[1..]);
      InsertAfter(x, rows[0], rows[1..]);
      assert rows == [rows[0]] + rows[1..];
    }
  }

  lemma InsertFirst(x: DerivationPath, rows: seq<DerivationPath>)
    requires SortedRows(rows) && (rows == [] || x.derivationIndex <= rows[0].derivationIndex)
    ensures NoneLate([x] + rows) <==> NoneLate(rows) && Fits(x, rows)
  {
    hide NoneLate;
    NoneLateCons(x, rows);
    forall y | y in rows
      ensures Misplaced(x, y) <==> x.used == 0 && y.used == 1
    {
      assert x.derivationIndex <= rows[0].derivationIndex <= y.derivationIndex;
    }
  }

  lemma InsertAfter(x: DerivationPath, head: DerivationPath, tail: seq<DerivationPath>)
    requires head.derivationIndex < x.derivationIndex
    requires NoneLate(Insert(x, tail)) <==> NoneLate(tail) && Fits(x, tail)
    ensures NoneLate([head] + Insert(x, tail)) <==> NoneLate([head] + tail) && Fits(x, [head] + tail)
  {
    hide NoneLate, Insert;
    InsertElements(x, tail);
    NoneLateCons(head, Insert(x, tail));
    NoneLateCons(head, tail);
    FitsCons(x, head, tail);
  }

  lemma FitsCons(x: DerivationPath, head: DerivationPath, tail: seq<DerivationPath>)
    ensures Fits(x, [head] + tail) <==> Fits(x, tail) && !Misplaced(x, head)
  {
    hide Misplaced;
    assert forall y :: y in [head] + tail <==> y == head || y in tail;
  }

  lemma NoneLateCons(x: DerivationPath, rows: seq<DerivationPath>)
    ensures NoneLate([x] + rows) <==> NoneLate(rows) && forall y :: y in rows ==> !(x.used == 0 && y.used == 1)
  {
    var all := [x] + rows;
    assert forall i :: 0 <= i < |rows| ==> all[i + 1] == rows[i];
    if NoneLate(all) {
      assert forall i, j :: 0 <= i < j < |rows| ==> all[i + 1] == rows[i] && all[j + 1] == rows[j];
      assert all[0] == x;
    }
  }

  lemma NoneMisplacedCons(x: DerivationPath, rows: seq<DerivationPath>)
    ensures NoneMisplaced([x] + rows) <==> NoneMisplaced(rows) && Fits(x, rows)
  {
    var all := [x] + rows;
    assert forall i :: 0 <= i < |rows| ==> all[i + 1] == rows[i];
    if NoneMisplaced(all) {
      assert forall i, j :: 0 <= i < j < |rows| ==> all[i + 1] == rows[i] && all[j + 1] == rows[j];
      assert all[0] == x;
    }
  }

  lemma {:induction false} SortedLate(rows: seq<DerivationPath>)
    ensures NoneLate(SortRows(rows)) <==> NoneMisplaced(rows)
  {
    if rows != [] {
      var tail := rows[1..];
      SortedLate(tail);
      SortIsStable(tail);
      InsertLate(rows[0], SortRows(tail));
      NoneMisplacedCons(rows[0], tail);
      assert rows == [rows[0]] + tail;
    }
  }

  lemma {:induction false} RowsMembers(paths: seq<DerivationPath>, w: int, p: DerivationPath)
    ensures p in Rows(paths, w) <==> p in paths && p.walletId == w
    decreases |paths|
  {
    if paths != [] {
      RowsMembers(paths[..|paths| - 1], w, p);
      assert paths == paths[..|paths| - 1] + [paths[|paths| - 1]];
    }
  }

  /** No two rows of wallet w are misplaced, seen in the whole table. */
  ghost predicate NoneMisplacedOf(paths: seq<DerivationPath>, w: int) {
    forall i, j :: 0 <= i < j < |paths| && paths[i].walletId == paths[j].walletId == w ==>
      !Misplaced(paths[i], paths[j])
  }

  lemma {:induction false} RowsMisplaced(paths: seq<DerivationPath>, w: int)
    ensures NoneMisplaced(Rows(paths, w)) <==> NoneMisplacedOf(paths, w)
    decreases |paths|
  {
    if paths != [] {
      var n := |paths| - 1;
      var init, last := paths[..n], paths[n];
      RowsMisplaced(init, w);
      LastMisplaced(init, last, w);
      assert paths == init + [last];
      if last.walletId == w {
        NoneMisplacedSnoc(Rows(init, w), last);
        forall y
          ensures y in Rows(init, w) <==> y in init && y.walletId == w
        {
          RowsMembers(init, w, y);
        }
      } else {
        assert Rows(paths, w) == Rows(init, w);
      }
    }
  }

  lemma NoneMisplacedSnoc(rows: seq<DerivationPath>, x: DerivationPath)
    ensures NoneMisplaced(rows + [x]) <==> NoneMisplaced(rows) && forall y :: y in rows ==> !Misplaced(y, x)
  {
    var all := rows + [x];
    assert forall i :: 0 <= i < |rows| ==> all[i] == rows[i];
    if NoneMisplaced(all) {
      assert forall i, j :: 0 <= i < j < |rows| ==> all[i] == rows[i] && all[j] == rows[j];
      assert all[|rows|] == x;
    }
  }

  lemma LastMisplaced(init: seq<DerivationPath>, last: DerivationPath, w: int)
    ensures NoneMisplacedOf(init + [last], w) <==>
            NoneMisplacedOf(init, w) &&
            (last.walletId == w ==> forall y :: y in init && y.walletId == w ==> !Misplaced(y, last))
  {
    var all := init + [last];
    assert forall i :: 0 <= i < |init| ==> all[i] == init[i];
    if NoneMisplacedOf(all, w) {
      assert forall i, j :: 0 <= i < j < |init| ==> all[i] == init[i] && all[j] == init[j];
      assert all[|init|] == last;
    }
  }

  lemma SplitsMeans(rows: seq<DerivationPath>)
    ensures OnesThenZeros(rows) <==> NoneLate(rows) && BadUsed(rows) == {}
  {
    WalletVerdict(0, rows);
    if NoneLate(rows) {
      assert forall j :: 0 <= j < |rows| ==> !Late(rows, j);
    }
    if OnesThenZeros(rows) {
      var k :| 0 <= k <= |rows| && SplitsAt(rows, k);
    }
  }

  ghost predicate GoodUsed(paths: seq<DerivationPath>) {
    forall p :: p in paths ==> p.used == 0 || p.used == 1
  }

  lemma WalletInTable(paths: seq<DerivationPath>, w: int)
    ensures Contiguous(paths, w) <==>
            NoneMisplacedOf(paths, w) && forall p :: p in paths && p.walletId == w ==> p.used == 0 || p.used == 1
  {
    hide SortRows, Rows, OnesThenZeros, NoneLate, NoneMisplaced, NoneMisplacedOf;
    var rows := Rows(paths, w);
    SplitsMeans(SortRows(rows));
    SortIsStable(rows);
    SortedLate(rows);
    RowsMisplaced(paths, w);
    forall p
      ensures p in rows <==> p in paths && p.walletId == w
    {
      RowsMembers(paths, w, p);
    }
    assert BadUsed(SortRows(rows)) == BadUsed(rows);
    if BadUsed(rows) == {} {
      forall p | p in rows
        ensures p.used == 0 || p.used == 1
      {
        assert p.used !in BadUsed(rows);
      }
    }
  }

  /** The used check is silent iff each wallet's rows, stably sorted by index, read as ones and then zeros. */
  lemma {:induction false} UsedVerdict(paths: seq<DerivationPath>)
    ensures UsedErrors(FirstSeen(paths), paths) == [] <==>
            forall p :: p in paths ==> Contiguous(paths, p.walletId)
  {
    hide Contiguous, UsedErrors;
    AllWalletsSilent(FirstSeen(paths), paths);
    SeenOnce(paths);
    forall p | p in paths
      ensures p.walletId in FirstSeen(paths)
    {
      var i :| 0 <= i < |paths| && paths[i] == p;
    }
  }

  /** The same verdict without grouping or sorting: every used value is 0 or 1, and no two rows of one wallet
      have the unused one at a smaller index, or at the same index but earlier in the table. */
  lemma {:induction false} UsedVerdictInTable(paths: seq<DerivationPath>)
    ensures UsedErrors(FirstSeen(paths), paths) == [] <==>
            && GoodUsed(paths)
            && forall i, j :: 0 <= i < j < |paths| && paths[i].walletId == paths[j].walletId ==>
              !Misplaced(paths[i], paths[j])
  {
    hide Contiguous, UsedErrors, FirstSeen, Misplaced;
    UsedVerdict(paths);
    forall w
      ensures Contiguous(paths, w) <==>
            NoneMisplacedOf(paths, w) && forall p :: p in paths && p.walletId == w ==> p.used == 0 || p.used == 1
    {
      WalletInTable(paths, w);
    }
    if UsedErrors(FirstSeen(paths), paths) == [] {
      forall i, j | 0 <= i < j < |paths| && paths[i].walletId == paths[j].walletId
        ensures !Misplaced(paths[i], paths[j])
      {
        assert paths[i] in paths;
        assert NoneMisplacedOf(paths, paths[i].walletId);
      }
    }
  }

  // ------------------------------------------------------------ what it reports

  ghost predicate RowOf(paths: seq<DerivationPath>, w: int, p: DerivationPath) {
    p in paths && p.walletId == w
  }

  ghost predicate HasUsed(paths: seq<DerivationPath>, w: int, x: int) {
    exists p :: RowOf(paths, w, p) && p.used == x
  }

  /** An unused row of the wallet at or below this index, and a used one at it. */
  ghost predicate LateAt(paths: seq<DerivationPath>, w: int, index: int) {
    exists p, q :: && RowOf(paths, w, p) && p.used == 1 && p.derivationIndex == index
                   && RowOf(paths, w, q) && q.used == 0 && q.derivationIndex <= index
  }

  /** The used row p has a larger index than the unused row q. */
  predicate ClearlyLate(q: DerivationPath, p: DerivationPath) {
    p.used == 1 && q.used == 0 && q.derivationIndex < p.derivationIndex
  }

  /** What an error says of the table: all bad values of a wallet, or the first index at which a used row comes
      after an unused one. */
  ghost predicate UsedInTable(paths: seq<DerivationPath>, e: UsedError) {
    match e
    case BadValues(w, values) =>
      values != {} && forall x :: x in values <==> x != 0 && x != 1 && HasUsed(paths, w, x)
    case UsedAfterUnused(w, index) =>
      && LateAt(paths, w, index)
      && forall p, q :: RowOf(paths, w, p) && RowOf(paths, w, q) && ClearlyLate(q, p) ==> index <= p.derivationIndex
  }

  lemma BadInTable(paths: seq<DerivationPath>, w: int, rows: seq<DerivationPath>)
    requires (forall p :: p in rows <==> RowOf(paths, w, p)) && BadUsed(rows) != {}
    ensures UsedInTable(paths, BadValues(w, BadUsed(rows)))
  {
    forall x
      ensures x in BadUsed(rows) <==> x != 0 && x != 1 && HasUsed(paths, w, x)
    {
      if HasUsed(paths, w, x) {
        var p :| RowOf(paths, w, p) && p.used == x;
        assert p in rows;
      }
    }
  }

  lemma LateInTable(paths: seq<DerivationPath>, w: int, rows: seq<DerivationPath>, k: nat)
    requires (forall p :: p in rows <==> RowOf(paths, w, p)) && SortedRows(rows)
    requires k < |rows| && Late(rows, k) && forall j :: 0 <= j < k ==> !Late(rows, j)
    ensures rows[k].walletId == w && UsedInTable(paths, UsedAfterUnused(w, rows[k].derivationIndex))
  {
    hide RowOf;
    var i :| 0 <= i < k && rows[i].used == 0;
    assert rows[i] in rows && rows[k] in rows;
    WalletOfRow(paths, w, rows[k]);
    forall p, q | RowOf(paths, w, p) && RowOf(paths, w, q) && ClearlyLate(q, p)
      ensures rows[k].derivationIndex <= p.derivationIndex
    {
      assert p in rows && q in rows;
      var a :| 0 <= a < |rows| && rows[a] == p;
      var b :| 0 <= b < |rows| && rows[b] == q;
      assert b < a;
      assert Late(rows, a);
    }
  }

  lemma WalletOfRow(paths: seq<DerivationPath>, w: int, p: DerivationPath)
    requires RowOf(paths, w, p)
    ensures p.walletId == w
  {
  }

  lemma WalletReport(paths: seq<DerivationPath>, w: int, e: UsedError)
    requires e in ErrorsOf(paths, w)
    ensures e.walletId == w && UsedInTable(paths, e)
  {
    hide SortRows, Rows, BadUsed, UsedInTable, Late;
    var rows := SortRows(Rows(paths, w));
    SortIsStable(Rows(paths, w));
    forall p
      ensures p in rows <==> RowOf(paths, w, p)
    {
      RowsMembers(paths, w, p);
    }
    if BadUsed(rows) != {} {
      BadInTable(paths, w, rows);
    }
    if FirstLate(rows).Some? {
      LateInTable(paths, w, rows, FirstLate(rows).value);
    }
  }

  /** Every error of the used check is one of the table. */
  lemma {:induction false} UsedReport(order: seq<int>, paths: seq<DerivationPath>, e: UsedError)
    requires e in UsedErrors(order, paths)
    ensures e.walletId in order && UsedInTable(paths, e)
    decreases |order|
  {
    hide ErrorsOf, UsedInTable;
    var init, w := order[..|order| - 1], order[|order| - 1];
    assert order == init + [w];
    if e in ErrorsOf(paths, w) {
      WalletReport(paths, w, e);
    } else {
      UsedReport(init, paths, e);
    }
  }
}
