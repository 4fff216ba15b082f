/** The searches as they run, with their early exits, and the paths they report. */
module KeySearchRun {
  import opened Bytes
  import opened HdPath
  import opened KeySearch

  // ------------------------------------------------------------ _search_derived

  /** A shallow search under one key. Returns the terms found; `reports` is what it prints. */
  method SearchDerived<SK, PK>(s: Scheme<SK, PK>, currentPk: PK, currentSk: Option<SK>, searchTerms: seq<string>,
                               path: string, pathIndices: Option<seq<int>>, o: Options)
    returns (found: seq<string>, reports: seq<Report<SK, PK>>)
    requires !(o.nonObserver && currentSk.None?)
    ensures var numbers := if pathIndices.Some? then pathIndices.value else [];
            reports == Search(s, o, Slots(s, o, currentPk, currentSk, path, numbers, 0), Dedup(searchTerms)).reports
    ensures found == Terms(reports)
  {
    hide Hits, Misses, Match, IndexText, ChildSlot, Search, Slots, Then, Dedup, WithoutAll;
    var remaining := Dedup(searchTerms);
    var currentPath := path;
    var currentPathIndices := if pathIndices.Some? then pathIndices.value else [];
    ghost var numbers := currentPathIndices;
    found, reports := [], [];
    ghost var whole := Search(s, o, Slots(s, o, currentPk, currentSk, path, numbers, 0), remaining);
    ThenNothing(whole);
    var index := 0;
    while index < o.limit
      invariant 0 <= index
      invariant currentPath == path && currentPathIndices == numbers
      invariant whole == Then(reports, Search(s, o, Slots(s, o, currentPk, currentSk, path, numbers, index), remaining))
      invariant found == Terms(reports)
      decreases o.limit - index
    {
      var currentIndexStr := IndexText(o, index);
      currentPath := currentPath + currentIndexStr;
      currentPathIndices := currentPathIndices + [index];
      var slot := ChildSlot(s, o, currentPk, currentSk, currentPath, currentPathIndices);
      var foundItems := FindItems(s, o, slot, remaining);
      ghost var before := remaining;
      var names;
      remaining, names := TakeFound(remaining, foundItems);
      found := found + names;
      SlotDone(s, o, slot, before, foundItems, remaining);
      SearchNext(s, o, currentPk, currentSk, path, numbers, index, before, reports);
      TermsConcat(reports, foundItems);
      reports := reports + foundItems;
      if |remaining| == 0 {
        SearchNothing(s, o, Slots(s, o, currentPk, currentSk, path, numbers, index + 1));
        ThenEnd(reports, remaining);
        return;
      }
      CutPath(currentPath, path, currentIndexStr);
      currentPath := currentPath[..|currentPath| - |currentIndexStr|];
      assert currentPathIndices[..|numbers|] == numbers;
      currentPathIndices := currentPathIndices[..|currentPathIndices| - 1];
      index := index + 1;
    }
    SearchOver(s, o, currentPk, currentSk, path, numbers, index, remaining);
    ThenEnd(reports, remaining);
  }

  /** The loop that moves the terms found at one slot from the remaining to the found ones. */
  method TakeFound<SK, PK>(terms: seq<string>, foundItems: seq<Report<SK, PK>>)
    returns (remaining: seq<string>, names: seq<string>)
    ensures remaining == WithoutAll(terms, Terms(foundItems))
    ensures names == Terms(foundItems)
  {
    hide Without;
    remaining, names := terms, [];
    ghost var all := Terms(foundItems);
    for k := 0 to |foundItems|
      invariant WithoutAll(terms, all) == WithoutAll(remaining, all[k..])
      invariant names == all[..k]
    {
      assert all[k..][0] == foundItems[k].term && all[k..][1..] == all[k + 1..];
      remaining := Without(remaining, foundItems[k].term);
      names := names + [foundItems[k].term];
    }
  }

  /** The loop over the remaining terms at one slot. */
  method FindItems<SK, PK>(s: Scheme<SK, PK>, o: Options, slot: Slot<SK, PK>, terms: seq<string>)
    returns (items: seq<Report<SK, PK>>)
    ensures items == Hits(s, o, slot, terms)
  {
    items := [];
    assert terms[0..] == terms;
    for i := 0 to |terms|
      invariant items + Hits(s, o, slot, terms[i..]) == Hits(s, o, slot, terms)
    {
      ghost var was := items;
      assert terms[i..][0] == terms[i] && terms[i..][1..] == terms[i + 1..];
      var item := Match(s, o, slot, terms[i]);
      if item.Some? {
        items := items + [Report(terms[i], item.value, slot.path)];
        assert was + ([Report(terms[i], item.value, slot.path)] + Hits(s, o, slot, terms[i + 1..])) ==
               items + Hits(s, o, slot, terms[i + 1..]);
      } else {
        assert [] + Hits(s, o, slot, terms[i + 1..]) == Hits(s, o, slot, terms[i + 1..]);
      }
    }
    assert terms[|terms|..] == [];
  }

  lemma CutPath(full: string, path: string, index: string)
    requires full == path + index
    ensures |index| <= |full| && full[..|full| - |index|] == path
  {
  }

  lemma ThenNothing<SK, PK>(out: Outcome<SK, PK>)
    ensures Then([], out) == out
  {
    assert [] + out.reports == out.reports;
  }

  lemma ThenEnd<SK, PK>(reports: seq<Report<SK, PK>>, remaining: seq<string>)
    ensures Then(reports, Outcome([], remaining)) == Outcome(reports, remaining)
  {
    assert reports + [] == reports;
  }

  lemma ThenThen<SK, PK>(a: seq<Report<SK, PK>>, b: seq<Report<SK, PK>>, out: Outcome<SK, PK>)
    ensures Then(a, Then(b, out)) == Then(a + b, out)
  {
    assert a + (b + out.reports) == a + b + out.reports;
  }

  /** Deleting the terms found at a slot leaves the misses. */
  lemma SlotDone<SK, PK>(s: Scheme<SK, PK>, o: Options, slot: Slot<SK, PK>, before: seq<string>,
                         items: seq<Report<SK, PK>>, remaining: seq<string>)
    requires items == Hits(s, o, slot, before) && remaining == WithoutAll(before, Terms(items))
    ensures remaining == Misses(s, o, slot, before)
  {
    hide Match;
    HitsIsKeep(s, o, slot, before);
    MissesIsKeep(s, o, slot, before);
    WithoutAllIsKeep(before, Terms(items));
    forall t | t in before
      ensures t !in Terms(items) <==> Match(s, o, slot, t).None?
    {
      KeepIn(before, u => Match(s, o, slot, u).Some?, t);
    }
    KeepSame(before, t => t !in Terms(items), t => Match(s, o, slot, t).None?);
  }

  lemma SearchOver<SK, PK>(s: Scheme<SK, PK>, o: Options, pk: PK, sk: Option<SK>, path: string, numbers: seq<int>,
                           index: nat, terms: seq<string>)
    requires index >= o.limit && (o.nonObserver ==> sk.Some?)
    ensures Search(s, o, Slots(s, o, pk, sk, path, numbers, index), terms) == Outcome([], terms)
  {
  }

  lemma SearchNext<SK, PK>(s: Scheme<SK, PK>, o: Options, pk: PK, sk: Option<SK>, path: string, numbers: seq<int>,
                           index: nat,
                           terms: seq<string>, reports: seq<Report<SK, PK>>)
    requires index < o.limit && (o.nonObserver ==> sk.Some?)
    ensures var slot := ChildSlot(s, o, pk, sk, path + IndexText(o, index), numbers + [index]);
            Then(reports, Search(s, o, Slots(s, o, pk, sk, path, numbers, index), terms)) ==
            Then(reports + Hits(s, o, slot, terms),
                 Search(s, o, Slots(s, o, pk, sk, path, numbers, index + 1), Misses(s, o, slot, terms)))
  {
    hide Hits, Misses, ChildSlot;
    var slot := ChildSlot(s, o, pk, sk, path + IndexText(o, index), numbers + [index]);
    var slots, rest := Slots(s, o, pk, sk, path, numbers, index), Slots(s, o, pk, sk, path, numbers, index + 1);
    assert slots[0] == slot && slots[1..] == rest;
    ThenThen(reports, Hits(s, o, slot, terms), Search(s, o, rest, Misses(s, o, slot, terms)));
  }

  /** Looking for nothing finds nothing: the early exits change no result. */
  lemma {:induction false} SearchNothing<SK, PK>(s: Scheme<SK, PK>, o: Options, slots: seq<Slot<SK, PK>>)
    ensures Search(s, o, slots, []) == Outcome([], [])
    decreases |slots|
  {
    if slots != [] {
      SearchNothing(s, o, slots[1..]);
      ThenNothing(Search(s, o, slots[1..], []));
    }
  }

  lemma {:induction false} SearchConcat<SK, PK>(s: Scheme<SK, PK>, o: Options, a: seq<Slot<SK, PK>>,
                                                b: seq<Slot<SK, PK>>, terms: seq<string>)
    ensures var first := Search(s, o, a, terms);
            Search(s, o, a + b, terms) == Then(first.reports, Search(s, o, b, first.remaining))
    decreases |a|
  {
    hide Hits, Misses;
    if a == [] {
      assert a + b == b;
      ThenNothing(Search(s, o, b, terms));
    } else {
      assert (a + b)[0] == a[0] && (a + b)[1..] == a[1..] + b;
      var misses := Misses(s, o, a[0], terms);
      SearchConcat(s, o, a[1..], b, misses);
      var first := Search(s, o, a[1..], misses);
      ThenThen(Hits(s, o, a[0], terms), first.reports, Search(s, o, b, first.remaining));
    }
  }

  // ------------------------------------------------------------ search_derive

  /** The text `12381/`, or `12381n/` for non-observer keys. */
  function StepText(o: Options, number: nat): string {
    IndexText(o, number) + "/"
  }

  function AccountPath(o: Options, account: nat): string {
    "m/" + StepText(o, 12381) + StepText(o, 8444) + StepText(o, account)
  }

  const ACCOUNTS: nat := 7

  /** The slots under the well-known paths, from an account on. */
  function AccountSlots<SK, PK>(s: Scheme<SK, PK>, o: Options, pk: PK, sk: Option<SK>, account: nat): seq<Slot<SK, PK>>
    requires o.nonObserver ==> sk.Some?
    decreases ACCOUNTS - account
  {
    if account >= ACCOUNTS then []
    else
      Slots(s, o, pk, sk, AccountPath(o, account), [12381, 8444, account], 0)
      + AccountSlots(s, o, pk, sk, account + 1)
  }

  /** The slots under one key. */
  function KeySlots<SK, PK>(s: Scheme<SK, PK>, o: Options, pk: PK, sk: Option<SK>,
                            root: Option<string>): Result<seq<Slot<SK, PK>>, PathError>
    requires o.nonObserver ==> sk.Some?
  {
    match root
    case None => Ok(AccountSlots(s, o, pk, sk, 0))
    case Some(path) =>
      match Derivation(s, pk, path, sk)
      case Err(e) => Err(e)
      case Ok(d) => Ok(Slots(s, o, d.pk, d.sk, d.path, [], 0))
  }

  datatype KeyPair<SK, PK> = KeyPair(pk: PK, sk: Option<SK>)

  /** A search ended by an exception, and what it had printed until then. */
  datatype Stopped<SK, PK> = Stopped(error: PathError, reports: seq<Report<SK, PK>>)

  /** Key after key, until no term remains; a root path that cannot be derived raises. */
  function SearchKeys<SK, PK>(s: Scheme<SK, PK>, o: Options, keys: seq<KeyPair<SK, PK>>, root: Option<string>,
                              terms: seq<string>)
    : Result<Outcome<SK, PK>, Stopped<SK, PK>>
    decreases |keys|
  {
    if keys == [] then Ok(Outcome([], terms))
    else if keys[0].sk.None? && o.nonObserver then SearchKeys(s, o, keys[1..], root, terms)
    else
      match KeySlots(s, o, keys[0].pk, keys[0].sk, root)
      case Err(e) => Err(Stopped(e, []))
      case Ok(slots) =>
        var out := Search(s, o, slots, terms);
        if out.remaining == [] then Ok(out) else After(out.reports, SearchKeys(s, o, keys[1..], root, out.remaining))
  }

  function After<SK, PK>(reports: seq<Report<SK, PK>>,
                         rest: Result<Outcome<SK, PK>, Stopped<SK, PK>>): Result<Outcome<SK, PK>, Stopped<SK, PK>> {
    match rest
    case Err(e) => Err(e.(reports := reports + e.reports))
    case Ok(out) => Ok(Then(reports, out))
  }

  /** What search_derive returns and prints. An error is the ValueError of the path parser. */
  method SearchDerive<SK, PK>(s: Scheme<SK, PK>, keys: seq<KeyPair<SK, PK>>, searchTerms: seq<string>, o: Options,
                              deriveFromHdPath: Option<string>)
    returns (r: Result<bool, PathError>, reports: seq<Report<SK, PK>>)
    ensures match SearchKeys(s, o, keys, deriveFromHdPath, Dedup(searchTerms))
            case Err(e) => r == Err(e.error) && reports == e.reports
            case Ok(out) => r == Ok(out.remaining == []) && reports == out.reports
  {
    hide Search, Slots, Derivation, Dedup, AccountSlots;
    var remaining := Dedup(searchTerms);
    reports := [];
    ghost var whole := SearchKeys(s, o, keys, deriveFromHdPath, remaining);
    assert keys[0..] == keys;
    AfterNothing(whole);
    var k := 0;
    while k < |keys|
      invariant 0 <= k <= |keys| && Unique(remaining)
      invariant whole == After(reports, SearchKeys(s, o, keys[k..], deriveFromHdPath, remaining))
    {
      var pk, sk := keys[k].pk, keys[k].sk;
      ghost var rest := keys[k..];
      assert rest[0] == keys[k] && rest[1..] == keys[k + 1..];
      k := k + 1;
      if sk.None? && o.nonObserver { continue; }
      ghost var before, start := remaining, reports;
      var more: seq<Report<SK, PK>>;
      if deriveFromHdPath.Some? {
        var root := DerivePkAndSkFromHdPath(s, pk, deriveFromHdPath.value, sk);
        if root.Err? {
          assert reports + [] == reports;
          return Err(root.error), reports;
        }
        RootSk(s, pk, deriveFromHdPath.value, sk);
        var found;
        found, more := SearchDerived(s, root.value.pk, root.value.sk, remaining, root.value.path, None, o);
        DedupUnique(remaining);
        RemainingAfter(s, o, Slots(s, o, root.value.pk, root.value.sk, root.value.path, [], 0), remaining);
        remaining := DeleteTerms(remaining, found);
      } else {
        more, remaining := SearchAccounts(s, pk, sk, remaining, o);
      }
      ghost var slots := KeySlots(s, o, pk, sk, deriveFromHdPath).value;
      assert Search(s, o, slots, before) == Outcome(more, remaining);
      SearchUnique(s, o, slots, before);
      AfterAfter(start, more, SearchKeys(s, o, rest[1..], deriveFromHdPath, remaining));
      reports := reports + more;
      if |remaining| == 0 {
        return Ok(true), reports;
      }
    }
    ThenEnd(reports, remaining);
    r := Ok(|remaining| == 0);
  }

  /** The loop over the seven accounts of one key. */
  method SearchAccounts<SK, PK>(s: Scheme<SK, PK>, pk: PK, sk: Option<SK>, terms: seq<string>, o: Options)
    returns (reports: seq<Report<SK, PK>>, remaining: seq<string>)
    requires (o.nonObserver ==> sk.Some?) && Unique(terms)
    ensures Search(s, o, AccountSlots(s, o, pk, sk, 0), terms) == Outcome(reports, remaining)
  {
    hide Search, Slots, Dedup, StepText;
    var currentPathIndices: seq<int> := [12381, 8444];
    var pathRoot := "m/";
    pathRoot := pathRoot + StepText(o, 12381);
    pathRoot := pathRoot + StepText(o, 8444);
    reports, remaining := [], terms;
    ghost var whole := Search(s, o, AccountSlots(s, o, pk, sk, 0), terms);
    ThenNothing(whole);
    var account := 0;
    while account < 7
      invariant 0 <= account <= ACCOUNTS && currentPathIndices == [12381, 8444] && Unique(remaining)
      invariant whole == Then(reports, Search(s, o, AccountSlots(s, o, pk, sk, account), remaining))
    {
      var currentPath := pathRoot + StepText(o, account);
      currentPathIndices := currentPathIndices + [account];
      assert currentPathIndices == [12381, 8444, account];
      ghost var slots := Slots(s, o, pk, sk, AccountPath(o, account), [12381, 8444, account], 0);
      var found, more := SearchDerived(s, pk, sk, remaining, currentPath, Some(currentPathIndices), o);
      DedupUnique(remaining);
      RemainingAfter(s, o, slots, remaining);
      SearchConcat(s, o, slots, AccountSlots(s, o, pk, sk, account + 1), remaining);
      SearchUnique(s, o, slots, remaining);
      remaining := DeleteTerms(remaining, found);
      ThenThen(reports, more, Search(s, o, AccountSlots(s, o, pk, sk, account + 1), remaining));
      reports := reports + more;
      if |remaining| == 0 {
        SearchNothing(s, o, AccountSlots(s, o, pk, sk, account + 1));
        ThenEnd(reports, remaining);
        return;
      }
      currentPathIndices := currentPathIndices[..|currentPathIndices| - 1];
      account := account + 1;
    }
    NoSlots(s, o, remaining);
    ThenEnd(reports, remaining);
  }

  /** Deleting the found terms from the ordered set of remaining ones. */
  method DeleteTerms(terms: seq<string>, found: seq<string>) returns (remaining: seq<string>)
    ensures remaining == WithoutAll(terms, found)
  {
    remaining := terms;
    assert found[0..] == found;
    for k := 0 to |found|
      invariant WithoutAll(terms, found) == WithoutAll(remaining, found[k..])
    {
      assert found[k..][0] == found[k] && found[k..][1..] == found[k + 1..];
      remaining := Without(remaining, found[k]);
    }
  }

  lemma NoSlots<SK, PK>(s: Scheme<SK, PK>, o: Options, terms: seq<string>)
    ensures Search(s, o, [], terms) == Outcome([], terms)
  {
  }

  lemma AfterNothing<SK, PK>(rest: Result<Outcome<SK, PK>, Stopped<SK, PK>>)
    ensures After([], rest) == rest
  {
    if rest.Ok? {
      ThenNothing(rest.value);
    } else {
      assert [] + rest.error.reports == rest.error.reports;
    }
  }

  lemma AfterAfter<SK, PK>(a: seq<Report<SK, PK>>, b: seq<Report<SK, PK>>,
                           rest: Result<Outcome<SK, PK>, Stopped<SK, PK>>)
    ensures After(a, After(b, rest)) == After(a + b, rest)
  {
    if rest.Ok? {
      ThenThen(a, b, rest.value);
    } else {
      assert a + (b + rest.error.reports) == a + b + rest.error.reports;
    }
  }

  lemma RootSk<SK, PK>(s: Scheme<SK, PK>, pk: PK, root: string, sk: Option<SK>)
    requires Derivation(s, pk, root, sk).Ok?
    ensures Derivation(s, pk, root, sk).value.sk.Some? <==> sk.Some?
  {
  }

  /** Distinct terms are already an ordered set. */
  lemma {:induction false} DedupUnique(terms: seq<string>)
    requires Unique(terms)
    ensures Dedup(terms) == terms
    decreases |terms|
  {
    if terms != [] {
      var n := |terms| - 1;
      DedupUnique(terms[..n]);
      assert terms == terms[..n] + [terms[n]];
    }
  }

  lemma SearchUnique<SK, PK>(s: Scheme<SK, PK>, o: Options, slots: seq<Slot<SK, PK>>, terms: seq<string>)
    requires Unique(terms)
    ensures Unique(Search(s, o, slots, terms).remaining)
  {
    SearchReports(s, o, slots, terms);
    KeepUnique(terms, t => FirstMatch(s, o, slots, t) == |slots|);
  }

  /** What remains after a search is what is left when its found terms are deleted. */
  lemma RemainingAfter<SK, PK>(s: Scheme<SK, PK>, o: Options, slots: seq<Slot<SK, PK>>, terms: seq<string>)
    requires Unique(terms)
    ensures var out := Search(s, o, slots, terms); WithoutAll(terms, Terms(out.reports)) == out.remaining
  {
    hide Search, FirstMatch, Keep, WithoutAll;
    var out := Search(s, o, slots, terms);
    FirstMatchSearch(s, o, slots, terms);
    SearchReports(s, o, slots, terms);
    WithoutAllIsKeep(terms, Terms(out.reports));
    KeepSame(terms, t => t !in Terms(out.reports), t => FirstMatch(s, o, slots, t) == |slots|);
  }
}
