/** What a completed search means: the space it covers, and that its reports can be derived again. */
module KeySearchPaths {
  import opened Bytes
  import opened HdPath
  import opened KeySearch
  import opened KeySearchRun

  // ------------------------------------------------------------ the search space

  /** A place of the search space under the well-known paths. */
  datatype Place = Place(key: nat, account: nat, index: nat)

  predicate Before(a: Place, b: Place) {
    || a.key < b.key
    || (a.key == b.key && a.account < b.account)
    || (a.key == b.key && a.account == b.account && a.index < b.index)
  }

  /** The key takes part: without its secret key there is nothing to derive with hardening. */
  predicate Usable<SK, PK>(o: Options, key: KeyPair<SK, PK>) {
    !(key.sk.None? && o.nonObserver)
  }

  /** The accounts searched under a key: seven under the well-known paths, and a root path counts as one. */
  function Accounts(root: Option<string>): nat {
    if root.None? then ACCOUNTS else 1
  }

  ghost predicate InSpace<SK, PK>(o: Options, keys: seq<KeyPair<SK, PK>>, root: Option<string>, p: Place) {
    p.key < |keys| && Usable(o, keys[p.key]) && p.account < Accounts(root) && p.index < o.limit
  }

  /** The root path can be derived from every key that takes part. */
  ghost predicate Derives<SK, PK>(s: Scheme<SK, PK>, o: Options, keys: seq<KeyPair<SK, PK>>, root: Option<string>) {
    root.Some? ==>
      forall i :: 0 <= i < |keys| && Usable(o, keys[i]) ==> Derivation(s, keys[i].pk, root.value, keys[i].sk).Ok?
  }

  /** What is derived at an index below an account, or below a root path. */
  ghost function ChildAt<SK, PK>(s: Scheme<SK, PK>, o: Options, key: KeyPair<SK, PK>, root: Option<string>,
                                 account: nat, index: nat): Slot<SK, PK>
    requires Usable(o, key) && (root.Some? ==> Derivation(s, key.pk, root.value, key.sk).Ok?)
  {
    match root
    case None =>
      ChildSlot(s, o, key.pk, key.sk, AccountPath(o, account) + IndexText(o, index), [12381, 8444, account] + [index])
    case Some(path) =>
      var d := Derivation(s, key.pk, path, key.sk).value;
      ChildSlot(s, o, d.pk, d.sk, d.path + IndexText(o, index), [] + [index])
  }

  ghost function SlotAt<SK, PK>(s: Scheme<SK, PK>, o: Options, keys: seq<KeyPair<SK, PK>>, root: Option<string>,
                                p: Place): Slot<SK, PK>
    requires InSpace(o, keys, root, p) && Derives(s, o, keys, root)
  {
    ChildAt(s, o, keys[p.key], root, p.account, p.index)
  }

  function IndexPlaces(o: Options, key: nat, account: nat, index: nat): seq<Place>
    decreases o.limit - index
  {
    if index >= o.limit then [] else [Place(key, account, index)] + IndexPlaces(o, key, account, index + 1)
  }

  function AccountPlaces(o: Options, key: nat, accounts: nat, account: nat): seq<Place>
    decreases accounts - account
  {
    if account >= accounts then [] else IndexPlaces(o, key, account, 0) + AccountPlaces(o, key, accounts, account + 1)
  }

  /** All places, key by key, account by account, index by index. */
  function Places<SK, PK>(o: Options, keys: seq<KeyPair<SK, PK>>, root: Option<string>, key: nat): seq<Place>
    requires key <= |keys|
    decreases |keys| - key
  {
    if key == |keys| then []
    else
      (if Usable(o, keys[key]) then AccountPlaces(o, key, Accounts(root), 0) else [])
      + Places(o, keys, root, key + 1)
  }

  ghost function SpaceFrom<SK, PK>(s: Scheme<SK, PK>, o: Options, keys: seq<KeyPair<SK, PK>>, root: Option<string>,
                                   key: nat): seq<Slot<SK, PK>>
    requires key <= |keys| && Derives(s, o, keys, root)
    decreases |keys| - key
  {
    if key == |keys| then []
    else
      (if Usable(o, keys[key]) then KeySlots(s, o, keys[key].pk, keys[key].sk, root).value else [])
      + SpaceFrom(s, o, keys, root, key + 1)
  }

  ghost predicate Ordered(places: seq<Place>) {
    forall i, j :: 0 <= i < j < |places| ==> Before(places[i], places[j])
  }

  lemma {:induction false} IndexPlacesListed(o: Options, key: nat, account: nat, index: nat)
    ensures Ordered(IndexPlaces(o, key, account, index))
    ensures forall p :: p in IndexPlaces(o, key, account, index) <==>
            p.key == key && p.account == account && index <= p.index < o.limit
    decreases o.limit - index
  {
    if index < o.limit {
      IndexPlacesListed(o, key, account, index + 1);
      OrderedConcat([Place(key, account, index)], IndexPlaces(o, key, account, index + 1));
    }
  }

  lemma OrderedConcat(a: seq<Place>, b: seq<Place>)
    requires Ordered(a) && Ordered(b) && forall p, q :: p in a && q in b ==> Before(p, q)
    ensures Ordered(a + b)
  {
    forall i, j | 0 <= i < j < |a + b|
      ensures Before((a + b)[i], (a + b)[j])
    {
      if i < |a| <= j {
        assert a[i] in a && b[j - |a|] in b;
      }
    }
  }

  lemma {:induction false} AccountPlacesListed(o: Options, key: nat, accounts: nat, account: nat)
    requires account <= accounts
    ensures Ordered(AccountPlaces(o, key, accounts, account))
    ensures forall p :: p in AccountPlaces(o, key, accounts, account) <==>
            p.key == key && account <= p.account < accounts && p.index < o.limit
    decreases accounts - account
  {
    if account < accounts {
      IndexPlacesListed(o, key, account, 0);
      AccountPlacesListed(o, key, accounts, account + 1);
      OrderedConcat(IndexPlaces(o, key, account, 0), AccountPlaces(o, key, accounts, account + 1));
    }
  }

  lemma NoPlaces()
    ensures Ordered([])
  {
  }

  /** The places are listed in lexicographic order, and they are the whole space. */
  lemma {:induction false} PlacesListed<SK, PK>(o: Options, keys: seq<KeyPair<SK, PK>>, root: Option<string>, key: nat)
    requires key <= |keys|
    ensures Ordered(Places(o, keys, root, key))
    ensures forall p :: p in Places(o, keys, root, key) <==> key <= p.key && InSpace(o, keys, root, p)
    decreases |keys| - key
  {
    hide Ordered, AccountPlaces, Usable, Accounts;
    NoPlaces();
    if key < |keys| {
      AccountPlacesListed(o, key, Accounts(root), 0);
      PlacesListed(o, keys, root, key + 1);
      var here := if Usable(o, keys[key]) then AccountPlaces(o, key, Accounts(root), 0) else [];
      KeyBlock(here, Places(o, keys, root, key + 1), key);
    }
  }

  lemma KeyBlock(here: seq<Place>, rest: seq<Place>, key: nat)
    requires (here == [] || Ordered(here)) && Ordered(rest)
    requires (forall p :: p in here ==> p.key == key) && forall q :: q in rest ==> key < q.key
    ensures Ordered(here + rest)
    ensures forall p :: p in here + rest <==> p in here || p in rest
  {
    OrderedConcat(here, rest);
  }

  /** The slots of a shallow search are those of its indexes. */
  lemma {:induction false} IndexSlots<SK, PK>(s: Scheme<SK, PK>, o: Options, keys: seq<KeyPair<SK, PK>>, key: nat,
                                              account: nat, index: nat)
    requires key < |keys| && Usable(o, keys[key]) && account < ACCOUNTS
    ensures Corresponds(s, o, keys, None, Slots(s, o, keys[key].pk, keys[key].sk, AccountPath(o, account),
                                                [12381, 8444, account], index),
                        IndexPlaces(o, key, account, index))
    decreases o.limit - index
  {
    hide ChildSlot, AccountPath, Corresponds, IndexText;
    NothingCorresponds(s, o, keys, None);
    if index < o.limit {
      IndexSlots(s, o, keys, key, account, index + 1);
      var pk, sk, path, numbers := keys[key].pk, keys[key].sk, AccountPath(o, account), [12381, 8444, account];
      var here := ChildSlot(s, o, pk, sk, path + IndexText(o, index), numbers + [index]);
      OneCorresponds(s, o, keys, None, here, Place(key, account, index));
      CorrespondsConcat(s, o, keys, None, [here], [Place(key, account, index)],
                        Slots(s, o, pk, sk, path, numbers, index + 1), IndexPlaces(o, key, account, index + 1));
    }
  }

  lemma {:induction false} RootIndexSlots<SK, PK>(s: Scheme<SK, PK>, o: Options, keys: seq<KeyPair<SK, PK>>,
                                                  root: string, key: nat, index: nat)
    requires key < |keys| && Usable(o, keys[key]) && Derives(s, o, keys, Some(root))
    ensures var d := Derivation(s, keys[key].pk, root, keys[key].sk).value;
            && (o.nonObserver ==> d.sk.Some?)
            && Corresponds(s, o, keys, Some(root), Slots(s, o, d.pk, d.sk, d.path, [], index),
                           IndexPlaces(o, key, 0, index))
    decreases o.limit - index
  {
    RootSk(s, keys[key].pk, root, keys[key].sk);
    var d := Derivation(s, keys[key].pk, root, keys[key].sk).value;
    hide ChildSlot, Derivation, Corresponds, IndexText;
    NothingCorresponds(s, o, keys, Some(root));
    if index < o.limit {
      RootIndexSlots(s, o, keys, root, key, index + 1);
      var here := ChildSlot(s, o, d.pk, d.sk, d.path + IndexText(o, index), [] + [index]);
      OneCorresponds(s, o, keys, Some(root), here, Place(key, 0, index));
      CorrespondsConcat(s, o, keys, Some(root), [here], [Place(key, 0, index)],
                        Slots(s, o, d.pk, d.sk, d.path, [], index + 1), IndexPlaces(o, key, 0, index + 1));
    }
  }

  /** Each slot is the one derived at the place listed beside it. */
  ghost predicate Corresponds<SK, PK>(s: Scheme<SK, PK>, o: Options, keys: seq<KeyPair<SK, PK>>, root: Option<string>,
                                      slots: seq<Slot<SK, PK>>, places: seq<Place>) {
    Derives(s, o, keys, root) && |slots| == |places| && forall i :: 0 <= i < |places| ==>
      InSpace(o, keys, root, places[i]) && slots[i] == SlotAt(s, o, keys, root, places[i])
  }

  lemma OneCorresponds<SK, PK>(s: Scheme<SK, PK>, o: Options, keys: seq<KeyPair<SK, PK>>, root: Option<string>,
                               slot: Slot<SK, PK>, p: Place)
    requires Derives(s, o, keys, root) && InSpace(o, keys, root, p) && slot == SlotAt(s, o, keys, root, p)
    ensures Corresponds(s, o, keys, root, [slot], [p])
  {
  }

  lemma CorrespondsConcat<SK, PK>(s: Scheme<SK, PK>, o: Options, keys: seq<KeyPair<SK, PK>>, root: Option<string>,
                                  a: seq<Slot<SK, PK>>, pa: seq<Place>, b: seq<Slot<SK, PK>>, pb: seq<Place>)
    requires Corresponds(s, o, keys, root, a, pa) && Corresponds(s, o, keys, root, b, pb)
    ensures Corresponds(s, o, keys, root, a + b, pa + pb)
  {
    hide SlotAt, Derives;
  }

  lemma {:induction false} AccountSlotsListed<SK, PK>(s: Scheme<SK, PK>, o: Options, keys: seq<KeyPair<SK, PK>>,
                                                      key: nat, account: nat)
    requires key < |keys| && Usable(o, keys[key]) && account <= ACCOUNTS
    ensures Corresponds(s, o, keys, None, AccountSlots(s, o, keys[key].pk, keys[key].sk, account),
                        AccountPlaces(o, key, ACCOUNTS, account))
    decreases ACCOUNTS - account
  {
    hide Corresponds, Slots, IndexPlaces;
    if account < ACCOUNTS {
      IndexSlots(s, o, keys, key, account, 0);
      AccountSlotsListed(s, o, keys, key, account + 1);
      CorrespondsConcat(s, o, keys, None,
                        Slots(s, o, keys[key].pk, keys[key].sk, AccountPath(o, account), [12381, 8444, account], 0),
                        IndexPlaces(o, key, account, 0), AccountSlots(s, o, keys[key].pk, keys[key].sk, account + 1),
                        AccountPlaces(o, key, ACCOUNTS, account + 1));
    } else {
      NothingCorresponds(s, o, keys, None);
    }
  }

  lemma NothingCorresponds<SK, PK>(s: Scheme<SK, PK>, o: Options, keys: seq<KeyPair<SK, PK>>, root: Option<string>)
    requires Derives(s, o, keys, root)
    ensures Corresponds(s, o, keys, root, [], [])
  {
  }

  lemma KeySlotsListed<SK, PK>(s: Scheme<SK, PK>, o: Options, keys: seq<KeyPair<SK, PK>>, root: Option<string>,
                               key: nat)
    requires key < |keys| && Usable(o, keys[key]) && Derives(s, o, keys, root)
    ensures KeySlots(s, o, keys[key].pk, keys[key].sk, root).Ok?
    ensures Corresponds(s, o, keys, root, KeySlots(s, o, keys[key].pk, keys[key].sk, root).value,
                        AccountPlaces(o, key, Accounts(root), 0))
  {
    hide Corresponds, Slots, IndexPlaces, AccountSlots;
    match root
    case None => AccountSlotsListed(s, o, keys, key, 0);
    case Some(path) =>
      RootIndexSlots(s, o, keys, path, key, 0);
      assert AccountPlaces(o, key, 1, 1) == [];
      assert AccountPlaces(o, key, 1, 0) == IndexPlaces(o, key, 0, 0);
  }

  lemma {:induction false} SpaceListed<SK, PK>(s: Scheme<SK, PK>, o: Options, keys: seq<KeyPair<SK, PK>>,
                                               root: Option<string>, key: nat)
    requires key <= |keys| && Derives(s, o, keys, root)
    ensures Corresponds(s, o, keys, root, SpaceFrom(s, o, keys, root, key), Places(o, keys, root, key))
    decreases |keys| - key
  {
    hide Corresponds, KeySlots, AccountPlaces, Derives, Accounts;
    NothingCorresponds(s, o, keys, root);
    if key < |keys| {
      SpaceListed(s, o, keys, root, key + 1);
      if Usable(o, keys[key]) {
        KeySlotsListed(s, o, keys, root, key);
        CorrespondsConcat(s, o, keys, root, KeySlots(s, o, keys[key].pk, keys[key].sk, root).value,
                          AccountPlaces(o, key, Accounts(root), 0),
                          SpaceFrom(s, o, keys, root, key + 1), Places(o, keys, root, key + 1));
      } else {
        CorrespondsConcat(s, o, keys, root, [], [], SpaceFrom(s, o, keys, root, key + 1),
                          Places(o, keys, root, key + 1));
      }
    }
  }

  // ------------------------------------------------------------ the nested searches are one search

  lemma {:induction false} SearchKeysIsSearch<SK, PK>(s: Scheme<SK, PK>, o: Options, keys: seq<KeyPair<SK, PK>>,
                                                      root: Option<string>, key: nat, terms: seq<string>)
    requires key <= |keys| && Derives(s, o, keys, root)
    ensures SearchKeys(s, o, keys[key..], root, terms) == Ok(Search(s, o, SpaceFrom(s, o, keys, root, key), terms))
    decreases |keys| - key
  {
    hide Search, AccountSlots;
    var here := keys[key..];
    if key == |keys| {
      NoSlots(s, o, terms);
    } else {
      assert here[0] == keys[key] && here[1..] == keys[key + 1..];
      var rest := SpaceFrom(s, o, keys, root, key + 1);
      if !Usable(o, keys[key]) {
        SearchKeysIsSearch(s, o, keys, root, key + 1, terms);
        assert [] + rest == rest;
      } else {
        var slots := KeySlots(s, o, keys[key].pk, keys[key].sk, root).value;
        var out := Search(s, o, slots, terms);
        SearchKeysIsSearch(s, o, keys, root, key + 1, out.remaining);
        SearchConcat(s, o, slots, rest, terms);
        if out.remaining == [] {
          SearchNothing(s, o, rest);
          ThenEnd(out.reports, []);
        }
      }
    }
  }

  /** The first place, in lexicographic order of key, account and index, where a term matches. */
  ghost predicate FirstPlace<SK, PK>(s: Scheme<SK, PK>, o: Options, keys: seq<KeyPair<SK, PK>>, root: Option<string>,
                                     term: string, p: Place) {
    && Derives(s, o, keys, root)
    && InSpace(o, keys, root, p)
    && Match(s, o, SlotAt(s, o, keys, root, p), term).Some?
    && forall q :: InSpace(o, keys, root, q) && Before(q, p) ==>
         Match(s, o, SlotAt(s, o, keys, root, q), term).None?
  }

  /** The report is the one for the first place where its term matches. */
  ghost predicate ReportOf<SK, PK>(s: Scheme<SK, PK>, o: Options, keys: seq<KeyPair<SK, PK>>, root: Option<string>,
                                   r: Report<SK, PK>, p: Place) {
    && FirstPlace(s, o, keys, root, r.term, p)
    && r.path == SlotAt(s, o, keys, root, p).path
    && Match(s, o, SlotAt(s, o, keys, root, p), r.term) == Some(r.item)
  }

  ghost predicate MatchesSomewhere<SK, PK>(s: Scheme<SK, PK>, o: Options, keys: seq<KeyPair<SK, PK>>,
                                           root: Option<string>, term: string)
    requires Derives(s, o, keys, root)
  {
    exists p :: InSpace(o, keys, root, p) && Match(s, o, SlotAt(s, o, keys, root, p), term).Some?
  }

  /** `places[i]` is where the i-th report was found; they come in the order of the search, and at one place in
      the order of the terms. */
  ghost predicate Located<SK, PK>(s: Scheme<SK, PK>, o: Options, keys: seq<KeyPair<SK, PK>>, root: Option<string>,
                                  terms: seq<string>, reports: seq<Report<SK, PK>>, places: seq<Place>) {
    && |places| == |reports|
    && (forall i :: 0 <= i < |reports| ==> ReportOf(s, o, keys, root, reports[i], places[i]))
    && forall i, j :: 0 <= i < j < |places| ==>
         || Before(places[i], places[j])
         || (places[i] == places[j] && Ahead(terms, reports[i].term, reports[j].term))
  }

  /** If the root path can be derived, the nested searches do not raise. Each term that matches somewhere is
      reported exactly once, at its first place, with the path of that place and what it matches there, and the
      reports come in the order of their places; the other terms are left over, and the result is true exactly
      when there are none. */
  lemma {:induction false} SearchFindsFirstPlaces<SK, PK>(s: Scheme<SK, PK>, o: Options, keys: seq<KeyPair<SK, PK>>,
                                                          root: Option<string>, terms: seq<string>)
    returns (places: seq<Place>)
    requires Unique(terms) && Derives(s, o, keys, root)
    ensures SearchKeys(s, o, keys, root, terms).Ok?
    ensures var out := SearchKeys(s, o, keys, root, terms).value;
            && Unique(Terms(out.reports))
            && multiset(Terms(out.reports)) + multiset(out.remaining) == multiset(terms)
            && Located(s, o, keys, root, terms, out.reports, places)
            && (forall t :: t in terms ==> (t in out.remaining <==> !MatchesSomewhere(s, o, keys, root, t)))
            && (out.remaining == [] <==> forall t :: t in terms ==> MatchesSomewhere(s, o, keys, root, t))
  {
    hide Search, SpaceFrom, Places, FirstMatch, Match, SlotAt, SearchKeys, MatchesSomewhere, Located, Derives;
    var slots := SpaceFrom(s, o, keys, root, 0);
    SearchKeysIsSearch(s, o, keys, root, 0, terms);
    assert keys[0..] == keys;
    FirstMatchSearch(s, o, slots, terms);
    var out := Search(s, o, slots, terms);
    forall t
      ensures FirstMatch(s, o, slots, t) < |slots| <==> MatchesSomewhere(s, o, keys, root, t)
    {
      FirstSlotIsFirstPlace(s, o, keys, root, t);
    }
    SearchOrdered(s, o, slots, terms);
    places := PlacesOfReports(s, o, keys, root, terms, out.reports);
  }

  /** The places of reports that come in the order of the slots. */
  lemma PlacesOfReports<SK, PK>(s: Scheme<SK, PK>, o: Options, keys: seq<KeyPair<SK, PK>>, root: Option<string>,
                                terms: seq<string>, reports: seq<Report<SK, PK>>)
    returns (places: seq<Place>)
    requires Derives(s, o, keys, root)
    requires forall r :: r in reports ==> ReportedAt(s, o, SpaceFrom(s, o, keys, root, 0), r)
    requires InOrder(s, o, SpaceFrom(s, o, keys, root, 0), terms, reports)
    ensures Located(s, o, keys, root, terms, reports, places)
  {
    hide SpaceFrom, Places, FirstMatch, Match, SlotAt, Derives, ReportOf, ReportedAt, Before;
    var slots, all := SpaceFrom(s, o, keys, root, 0), Places(o, keys, root, 0);
    SpaceListed(s, o, keys, root, 0);
    PlacesListed(o, keys, root, 0);
    forall i | 0 <= i < |reports|
      ensures FirstMatch(s, o, slots, reports[i].term) < |all|
      ensures ReportOf(s, o, keys, root, reports[i], all[FirstMatch(s, o, slots, reports[i].term)])
    {
      PlaceOfReport(s, o, keys, root, reports[i]);
    }
    places := seq(|reports|, i requires 0 <= i < |reports| => all[FirstMatch(s, o, slots, reports[i].term)]);
  }

  /** The place of the first matching slot. */
  lemma PlaceOfReport<SK, PK>(s: Scheme<SK, PK>, o: Options, keys: seq<KeyPair<SK, PK>>, root: Option<string>,
                              r: Report<SK, PK>)
    requires Derives(s, o, keys, root) && ReportedAt(s, o, SpaceFrom(s, o, keys, root, 0), r)
    ensures var i := FirstMatch(s, o, SpaceFrom(s, o, keys, root, 0), r.term);
            i < |Places(o, keys, root, 0)| && ReportOf(s, o, keys, root, r, Places(o, keys, root, 0)[i])
  {
    hide SpaceFrom, Places, FirstMatch, Match, SlotAt, Derives;
    var slots, places := SpaceFrom(s, o, keys, root, 0), Places(o, keys, root, 0);
    var i := FirstMatch(s, o, slots, r.term);
    SpaceListed(s, o, keys, root, 0);
    PlacesListed(o, keys, root, 0);
    var p := places[i];
    forall q | InSpace(o, keys, root, q) && Before(q, p)
      ensures Match(s, o, SlotAt(s, o, keys, root, q), r.term).None?
    {
      assert q in places;
      var j :| 0 <= j < |places| && places[j] == q;
      assert i < j ==> Before(p, q);
      assert slots[j] == SlotAt(s, o, keys, root, q);
    }
  }

  lemma FirstSlotIsFirstPlace<SK, PK>(s: Scheme<SK, PK>, o: Options, keys: seq<KeyPair<SK, PK>>, root: Option<string>,
                                      term: string)
    requires Derives(s, o, keys, root)
    ensures var slots := SpaceFrom(s, o, keys, root, 0);
            FirstMatch(s, o, slots, term) < |slots| <==> MatchesSomewhere(s, o, keys, root, term)
  {
    hide SpaceFrom, Places, FirstMatch, Match, SlotAt, Derives;
    var slots, places := SpaceFrom(s, o, keys, root, 0), Places(o, keys, root, 0);
    var i := FirstMatch(s, o, slots, term);
    SpaceListed(s, o, keys, root, 0);
    PlacesListed(o, keys, root, 0);
    if i < |slots| {
      assert InSpace(o, keys, root, places[i]) && slots[i] == SlotAt(s, o, keys, root, places[i]);
    }
    if MatchesSomewhere(s, o, keys, root, term) {
      var p :| InSpace(o, keys, root, p) && Match(s, o, SlotAt(s, o, keys, root, p), term).Some?;
      assert p in places;
      var j :| 0 <= j < |places| && places[j] == p;
      assert slots[j] == SlotAt(s, o, keys, root, p);
    }
  }

  // ------------------------------------------------------------ keys without the root path

  /** The first key that takes part but cannot derive the root path ends the search, unless the keys before it
      have all the terms. */
  lemma {:induction false} SearchStops<SK, PK>(s: Scheme<SK, PK>, o: Options, keys: seq<KeyPair<SK, PK>>, root: string,
                                               i: nat, terms: seq<string>)
    requires i < |keys| && Usable(o, keys[i]) && Derivation(s, keys[i].pk, root, keys[i].sk).Err?
    requires Derives(s, o, keys[..i], Some(root))
    ensures SearchKeys(s, o, keys[..i], Some(root), terms).Ok?
    ensures var before := SearchKeys(s, o, keys[..i], Some(root), terms).value;
            SearchKeys(s, o, keys, Some(root), terms) ==
            if before.remaining == [] && exists j :: 0 <= j < i && Usable(o, keys[j]) then Ok(before)
            else Err(Stopped(Derivation(s, keys[i].pk, root, keys[i].sk).error, before.reports))
    decreases i, 1
  {
    hide Search, Derivation, Slots;
    var head := keys[..i];
    if i == 0 {
      assert head == [];
    } else {
      assert head[0] == keys[0] && head[1..] == keys[1..][..i - 1];
      StopsLater(s, o, keys, root, i, terms);
    }
  }

  lemma StopsLater<SK, PK>(s: Scheme<SK, PK>, o: Options, keys: seq<KeyPair<SK, PK>>, root: string, i: nat,
                           terms: seq<string>)
    requires 0 < i < |keys| && Usable(o, keys[i]) && Derivation(s, keys[i].pk, root, keys[i].sk).Err?
    requires Derives(s, o, keys[..i], Some(root))
    ensures SearchKeys(s, o, keys[..i], Some(root), terms).Ok?
    ensures var before := SearchKeys(s, o, keys[..i], Some(root), terms).value;
            SearchKeys(s, o, keys, Some(root), terms) ==
            if before.remaining == [] && exists j :: 0 <= j < i && Usable(o, keys[j]) then Ok(before)
            else Err(Stopped(Derivation(s, keys[i].pk, root, keys[i].sk).error, before.reports))
    decreases i, 0
  {
    hide Search, Derivation, Slots;
    var head, rest := keys[..i], keys[1..];
    assert head[0] == keys[0] && head[1..] == rest[..i - 1] && rest[i - 1] == keys[i];
    assert Derives(s, o, rest[..i - 1], Some(root)) by {
      forall k | 0 <= k < i - 1 && Usable(o, rest[k])
        ensures Derivation(s, rest[k].pk, root, rest[k].sk).Ok?
      {
        assert head[k + 1] == rest[k];
      }
    }
    assert (exists j :: 0 <= j < i && Usable(o, keys[j])) <==>
           Usable(o, keys[0]) || exists j :: 0 <= j < i - 1 && Usable(o, rest[j]) by {
      if j :| 0 <= j < i && Usable(o, keys[j]) {
        assert j == 0 || rest[j - 1] == keys[j];
      }
      if j :| 0 <= j < i - 1 && Usable(o, rest[j]) {
        assert keys[j + 1] == rest[j];
      }
    }
    if !Usable(o, keys[0]) {
      SearchStops(s, o, rest, root, i - 1, terms);
    } else {
      assert Derivation(s, head[0].pk, root, head[0].sk).Ok?;
      var slots := KeySlots(s, o, keys[0].pk, keys[0].sk, Some(root)).value;
      var out := Search(s, o, slots, terms);
      SearchStops(s, o, rest, root, i - 1, out.remaining);
      if !exists j :: 0 <= j < i - 1 && Usable(o, rest[j]) {
        NoneUsable(s, o, rest[..i - 1], root, out.remaining);
      }
    }
  }

  lemma {:induction false} NoneUsable<SK, PK>(s: Scheme<SK, PK>, o: Options, keys: seq<KeyPair<SK, PK>>, root: string,
                                              terms: seq<string>)
    requires forall j :: 0 <= j < |keys| ==> !Usable(o, keys[j])
    ensures SearchKeys(s, o, keys, Some(root), terms) == Ok(Outcome([], terms))
    decreases |keys|
  {
    if keys != [] {
      assert !Usable(o, keys[0]);
      NoneUsable(s, o, keys[1..], root, terms);
    }
  }

  // ------------------------------------------------------------ reported paths

  lemma IndexTextReads(o: Options, index: nat, haveSk: bool)
    requires o.nonObserver ==> haveSk
    ensures IndexText(o, index) != [] && Plain(IndexText(o, index))
    ensures ReadStep(IndexText(o, index), haveSk) == Ok(Index(index, o.nonObserver))
  {
    var digits, text := ShowNat(index), IndexText(o, index);
    ReadShow(index);
    hide ReadInt, ShowNat;
    if o.nonObserver {
      assert text[|text| - 1] == 'n' && text[..|text| - 1] == digits;
    } else {
      assert text == digits && IsDigit(text[|text| - 1]);
    }
  }

  /** The steps of the path to an account. */
  function AccountSteps(o: Options, account: nat): seq<string> {
    [IndexText(o, 12381), IndexText(o, 8444), IndexText(o, account)]
  }

  lemma AccountPathText(o: Options, account: nat)
    ensures AccountPath(o, account) == ShowPath(AccountSteps(o, account))
  {
    hide IndexText;
    var a, b, c := IndexText(o, 12381), IndexText(o, 8444), IndexText(o, account);
    JoinThree(a, b, c);
  }

  lemma JoinThree(a: string, b: string, c: string)
    ensures "m/" + (a + "/") + (b + "/") + (c + "/") == "m/" + Join([a, b, c], '/') + "/"
  {
    assert [a, b, c][1..] == [b, c] && [b, c][1..] == [c];
    assert Join([b, c], '/') == b + ['/'] + c;
    assert Join([a, b, c], '/') == a + ['/'] + (b + ['/'] + c);
    assert (a + "/") + (b + "/") + (c + "/") == a + ['/'] + (b + ['/'] + c) + "/";
  }

  /** Keys derived with hardening, or without it by owner and observer alike, are the keys of the slot. */
  lemma SlotKeys<SK(!new), PK>(s: Scheme<SK, PK>, o: Options, pk: PK, sk: Option<SK>, path: string, numbers: seq<int>,
                               text: string)
    requires Homomorphic(s) && (o.nonObserver ==> sk.Some?) && (sk.Some? ==> pk == s.publicKey(sk.value))
    ensures var slot := ChildSlot(s, o, pk, sk, path, numbers);
            var d := KeysAt(s, pk, sk, Indexes(numbers, o.nonObserver), text);
            (slot.pk.Some? ==> slot.pk.value == d.pk) && (slot.sk.Some? ==> d.sk == slot.sk)
  {
    hide DeriveSk, DerivePk, Homomorphic;
    if !o.nonObserver && sk.Some? {
      UnhardenedAgree(s, sk.value, Indexes(numbers, false));
    }
  }

  /** Feeding the path reported for a match under a well-known path back to the path parser derives the
      very keys that matched. */
  lemma {:induction false} ReportedPathDerives<SK(!new), PK>(s: Scheme<SK, PK>, o: Options, pk: PK, sk: Option<SK>,
                                                             account: nat, index: nat)
    requires Homomorphic(s) && (o.nonObserver ==> sk.Some?) && (sk.Some? ==> pk == s.publicKey(sk.value))
    ensures var slot := ChildSlot(s, o, pk, sk, AccountPath(o, account) + IndexText(o, index),
                                  [12381, 8444, account] + [index]);
            var d := Derivation(s, pk, slot.path, sk);
            d.Ok? && (slot.pk.Some? ==> slot.pk.value == d.value.pk) && (slot.sk.Some? ==> d.value.sk == slot.sk)
  {
    var haveSk := sk.Some?;
    var steps, last := AccountSteps(o, account), IndexText(o, index);
    AccountPathText(o, account);
    WellKnownPath(o, account, index, haveSk);
    hide ChildSlot, KeysAt, Steps, ReadSteps, Homomorphic, AccountPath;
    var path := AccountPath(o, account) + last;
    var numbers := [12381, 8444, account] + [index];
    SlotKeys(s, o, pk, sk, path, numbers, ShowPath(steps + [last]));
    SlotPath(s, o, pk, sk, path, numbers);
  }

  /** What was found belongs to these keys. */
  ghost predicate ItemOf<SK, PK>(s: Scheme<SK, PK>, o: Options, item: Item<SK, PK>, pk: PK, sk: Option<SK>) {
    match item
    case FoundSk(x) => sk == Some(x)
    case FoundPk(x) => pk == x
    case FoundAddress(text) => text == s.addressText(pk, o.prefix)
  }

  /** Each public key belongs to its secret key. */
  ghost predicate Paired<SK, PK>(s: Scheme<SK, PK>, keys: seq<KeyPair<SK, PK>>) {
    forall i :: 0 <= i < |keys| && keys[i].sk.Some? ==> keys[i].pk == s.publicKey(keys[i].sk.value)
  }

  /** Feeding the path of a report back to the parser, with the keys of that entry of the keyring, derives what was
      found. */
  ghost predicate Rederives<SK, PK>(s: Scheme<SK, PK>, o: Options, key: KeyPair<SK, PK>, r: Report<SK, PK>) {
    var d := Derivation(s, key.pk, r.path, key.sk);
    d.Ok? && ItemOf(s, o, r.item, d.value.pk, d.value.sk)
  }

  /** Every report of a search under the well-known paths can be derived again from its path, with the keys
      of the entry at its place. */
  lemma {:induction false} ReportsDerive<SK(!new), PK>(s: Scheme<SK, PK>, o: Options, keys: seq<KeyPair<SK, PK>>,
                                                       terms: seq<string>, r: Report<SK, PK>)
    returns (p: Place)
    requires Homomorphic(s) && Paired(s, keys) && Unique(terms)
    requires SearchKeys(s, o, keys, None, terms).Ok? && r in SearchKeys(s, o, keys, None, terms).value.reports
    ensures ReportOf(s, o, keys, None, r, p) && InSpace(o, keys, None, p) && Rederives(s, o, keys[p.key], r)
  {
    hide SearchKeys, ReportOf, Rederives, Homomorphic, Paired, Unique, InSpace;
    p := PlaceOf(s, o, keys, None, terms, r);
    ReportDerives(s, o, keys, r, p);
  }

  lemma ReportDerives<SK(!new), PK>(s: Scheme<SK, PK>, o: Options, keys: seq<KeyPair<SK, PK>>, r: Report<SK, PK>,
                                    p: Place)
    requires Homomorphic(s) && Paired(s, keys) && ReportOf(s, o, keys, None, r, p)
    ensures p.key < |keys| && InSpace(o, keys, None, p) && Rederives(s, o, keys[p.key], r)
  {
    hide Derivation, FirstPlace, Homomorphic, ChildSlot, Contains, AccountPath, IndexText;
    PlaceInSpace(s, o, keys, None, r.term, p);
    var key := keys[p.key];
    ReportedPathDerives(s, o, key.pk, key.sk, p.account, p.index);
  }

  lemma PlaceOf<SK, PK>(s: Scheme<SK, PK>, o: Options, keys: seq<KeyPair<SK, PK>>, root: Option<string>,
                        terms: seq<string>, r: Report<SK, PK>)
    returns (p: Place)
    requires Unique(terms) && Derives(s, o, keys, root)
    requires SearchKeys(s, o, keys, root, terms).Ok? && r in SearchKeys(s, o, keys, root, terms).value.reports
    ensures ReportOf(s, o, keys, root, r, p)
  {
    hide SearchKeys, ReportOf, MatchesSomewhere, Derives, Unique;
    var places := SearchFindsFirstPlaces(s, o, keys, root, terms);
    var reports := SearchKeys(s, o, keys, root, terms).value.reports;
    var i :| 0 <= i < |reports| && reports[i] == r;
    p := places[i];
  }

  lemma PlaceInSpace<SK, PK>(s: Scheme<SK, PK>, o: Options, keys: seq<KeyPair<SK, PK>>, root: Option<string>,
                             term: string, p: Place)
    requires FirstPlace(s, o, keys, root, term, p)
    ensures InSpace(o, keys, root, p)
  {
  }

  lemma SlotPath<SK, PK>(s: Scheme<SK, PK>, o: Options, pk: PK, sk: Option<SK>, path: string, numbers: seq<int>)
    requires o.nonObserver ==> sk.Some?
    ensures ChildSlot(s, o, pk, sk, path, numbers).path == path
  {
  }

  lemma WellKnownPath(o: Options, account: nat, index: nat, haveSk: bool)
    requires o.nonObserver ==> haveSk
    ensures var steps := AccountSteps(o, account) + [IndexText(o, index)];
            && Steps(ShowPath(AccountSteps(o, account)) + IndexText(o, index)) == Ok(steps)
            && ReadSteps(steps, haveSk) == Ok(Indexes([12381, 8444, account] + [index], o.nonObserver))
  {
    hide IndexText, ReadStep;
    var last := IndexText(o, index);
    IndexTextReads(o, 12381, haveSk);
    IndexTextReads(o, 8444, haveSk);
    IndexTextReads(o, account, haveSk);
    IndexTextReads(o, index, haveSk);
    OneStep(last);
    StepsOfComposed(AccountSteps(o, account), last);
    ReadFour(IndexText(o, 12381), IndexText(o, 8444), IndexText(o, account), last, haveSk);
    var h := o.nonObserver;
    assert Indexes([12381, 8444, account] + [index], h) ==
           [Index(12381, h), Index(8444, h), Index(account, h), Index(index, h)];
  }

  lemma ReadFour(a: string, b: string, c: string, d: string, haveSk: bool)
    requires ReadStep(a, haveSk).Ok? && ReadStep(b, haveSk).Ok? && ReadStep(c, haveSk).Ok? && ReadStep(d, haveSk).Ok?
    ensures ReadSteps([a, b, c] + [d], haveSk) ==
            Ok([ReadStep(a, haveSk).value, ReadStep(b, haveSk).value, ReadStep(c, haveSk).value,
                ReadStep(d, haveSk).value])
  {
    hide ReadStep, ReadSteps;
    ReadOneStep(a, haveSk);
    ReadOneStep(b, haveSk);
    ReadOneStep(c, haveSk);
    ReadOneStep(d, haveSk);
    ReadStepsConcat([a], [b], haveSk);
    ReadStepsConcat([a] + [b], [c], haveSk);
    ReadStepsConcat([a] + [b] + [c], [d], haveSk);
    assert [a] + [b] + [c] + [d] == [a, b, c] + [d];
    var x, y, z, w := ReadStep(a, haveSk).value, ReadStep(b, haveSk).value, ReadStep(c, haveSk).value,
      ReadStep(d, haveSk).value;
    assert [x] + [y] + [z] + [w] == [x, y, z, w];
  }

  /** The same for a search under a given root path: the reported path derives the keys that matched
      exactly when the root path has a step; under the bare root `m` the reported text is refused. */
  lemma {:induction false} RootedPathDerives<SK(!new), PK>(s: Scheme<SK, PK>, o: Options, pk: PK, sk: Option<SK>,
                                                           root: string, index: nat)
    requires Homomorphic(s) && (o.nonObserver ==> sk.Some?)
    requires Derivation(s, pk, root, sk).Ok?
    ensures var d := Derivation(s, pk, root, sk).value;
            var slot := ChildSlot(s, o, d.pk, d.sk, d.path + IndexText(o, index), [] + [index]);
            var e := Derivation(s, pk, slot.path, sk);
            if Steps(root).value == [] then e == Err(EmptyIndex)
            else e.Ok? && (slot.pk.Some? ==> slot.pk.value == e.value.pk) && (slot.sk.Some? ==> e.value.sk == slot.sk)
  {
    hide Steps, ReadSteps, ReadStep, KeysAt, Homomorphic, IndexText, ChildSlot, ShowPath;
    var d := Derivation(s, pk, root, sk).value;
    var last := IndexText(o, index);
    IndexTextReads(o, index, sk.Some?);
    DerivedPath(s, pk, root, sk);
    DerivedPublicKey(s, pk, root, sk);
    SlotPath(s, o, d.pk, d.sk, d.path + last, [] + [index]);
    if Steps(root).value == [] {
      BareRoot(last, sk.Some?);
    } else {
      OneStep(last);
      ReadOneStep(last, sk.Some?);
      assert Indexes([] + [index], o.nonObserver) == [Index(index, o.nonObserver)];
      DerivationComposes(s, pk, root, sk, last);
      SlotKeys(s, o, d.pk, d.sk, d.path + last, [] + [index], ShowPath([last]));
    }
  }

  /** A report of a search under a root path comes from an index below the keys derived there. */
  ghost predicate FoundUnder<SK, PK>(s: Scheme<SK, PK>, o: Options, key: KeyPair<SK, PK>, root: string,
                                     r: Report<SK, PK>, index: nat) {
    Usable(o, key) && Derivation(s, key.pk, root, key.sk).Ok? &&
    var d := Derivation(s, key.pk, root, key.sk).value;
    (o.nonObserver ==> d.sk.Some?) &&
    var slot := ChildSlot(s, o, d.pk, d.sk, d.path + IndexText(o, index), [] + [index]);
    r.path == slot.path && Match(s, o, slot, r.term) == Some(r.item)
  }

  lemma {:induction false} SlotOfIndex<SK, PK>(s: Scheme<SK, PK>, o: Options, pk: PK, sk: Option<SK>, path: string,
                                               numbers: seq<int>, index: nat, j: nat)
    requires (o.nonObserver ==> sk.Some?) && j < |Slots(s, o, pk, sk, path, numbers, index)|
    ensures Slots(s, o, pk, sk, path, numbers, index)[j] ==
            ChildSlot(s, o, pk, sk, path + IndexText(o, index + j), numbers + [index + j])
    decreases j
  {
    hide ChildSlot;
    if j > 0 {
      SlotOfIndex(s, o, pk, sk, path, numbers, index + 1, j - 1);
    }
  }

  lemma {:induction false} KeyOfReport<SK, PK>(s: Scheme<SK, PK>, o: Options, keys: seq<KeyPair<SK, PK>>, root: string,
                                               terms: seq<string>, r: Report<SK, PK>)
    returns (i: nat, index: nat)
    requires SearchKeys(s, o, keys, Some(root), terms).Ok?
             && r in SearchKeys(s, o, keys, Some(root), terms).value.reports
    ensures i < |keys| && FoundUnder(s, o, keys[i], root, r, index)
    decreases |keys|
  {
    hide Search, Derivation, Slots, Match, ChildSlot, FoundUnder;
    if keys[0].sk.None? && o.nonObserver {
      i, index := KeyOfReport(s, o, keys[1..], root, terms, r);
      i := i + 1;
    } else {
      var slots := KeySlots(s, o, keys[0].pk, keys[0].sk, Some(root)).value;
      var out := Search(s, o, slots, terms);
      if r in out.reports {
        i := 0;
        index := IndexOfReport(s, o, keys[0], root, terms, r);
      } else {
        i, index := KeyOfReport(s, o, keys[1..], root, out.remaining, r);
        i := i + 1;
      }
    }
  }

  lemma IndexOfReport<SK, PK>(s: Scheme<SK, PK>, o: Options, key: KeyPair<SK, PK>, root: string, terms: seq<string>,
                              r: Report<SK, PK>)
    returns (index: nat)
    requires Usable(o, key) && Derivation(s, key.pk, root, key.sk).Ok?
    requires r in Search(s, o, KeySlots(s, o, key.pk, key.sk, Some(root)).value, terms).reports
    ensures FoundUnder(s, o, key, root, r, index)
  {
    hide Search, Derivation, Slots, Match, ChildSlot, FirstMatch;
    var d := Derivation(s, key.pk, root, key.sk).value;
    RootSk(s, key.pk, root, key.sk);
    var slots := Slots(s, o, d.pk, d.sk, d.path, [], 0);
    SearchReports(s, o, slots, terms);
    index := FirstMatch(s, o, slots, r.term);
    SlotOfIndex(s, o, d.pk, d.sk, d.path, [], 0, index);
  }

  /** Every report of a search under a root path that has a step can be derived again from its path, with the
      keys of the entry that was searched. */
  lemma {:induction false} RootedReportsDerive<SK(!new), PK>(s: Scheme<SK, PK>, o: Options, keys: seq<KeyPair<SK, PK>>,
                                                             root: string, terms: seq<string>, r: Report<SK, PK>)
    returns (i: nat, index: nat)
    requires Homomorphic(s) && Steps(root).Ok? && Steps(root).value != []
    requires SearchKeys(s, o, keys, Some(root), terms).Ok?
             && r in SearchKeys(s, o, keys, Some(root), terms).value.reports
    ensures i < |keys| && FoundUnder(s, o, keys[i], root, r, index) && Rederives(s, o, keys[i], r)
  {
    hide SearchKeys, Derivation, Homomorphic, ChildSlot, Steps;
    i, index := KeyOfReport(s, o, keys, root, terms, r);
    RootedPathDerives(s, o, keys[i].pk, keys[i].sk, root, index);
  }

  lemma BareRoot(last: string, haveSk: bool)
    requires last != [] && Plain(last)
    ensures Steps(ShowPath([]) + last) == Ok(["", last]) && ReadSteps(["", last], haveSk) == Err(EmptyIndex)
  {
    RootText();
    assert "m//" + last == "m" + ['/'] + ([] + ['/'] + last);
    SplitFirst("m", [] + ['/'] + last);
    SplitFirst([], last);
    SplitPlain(last);
    assert (["m"] + ([[]] + [last]))[1..] == ["", last];
  }
}
