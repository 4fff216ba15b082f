/** What a search finds, told from the derived keys and their texts alone. */
module KeySearchMeaning {
  import opened Bytes
  import opened HdPath
  import opened KeySearch
  import opened KeySearchRun
  import opened KeySearchPaths

  // ------------------------------------------------------------ what a term finds in a pair of keys

  ghost predicate Occurs(term: string, text: string) {
    exists a, b :: text == a + term + b
  }

  /** The term occurs in a text that is searched: that of the secret key, the public key or the address. The
      first of them, in this order, is what is reported. */
  ghost predicate Finds<SK, PK>(s: Scheme<SK, PK>, o: Options, pk: PK, sk: Option<SK>, term: string,
                                item: Item<SK, PK>) {
    var inSk := o.searchPrivateKey && sk.Some? && Occurs(term, s.skText(sk.value));
    var inPk := o.searchPublicKey && Occurs(term, s.pkText(pk));
    var inAddress := o.searchAddress && Occurs(term, s.addressText(pk, o.prefix));
    match item
    case FoundSk(x) => inSk && sk == Some(x)
    case FoundPk(x) => inPk && !inSk && pk == x
    case FoundAddress(text) => inAddress && !inSk && !inPk && text == s.addressText(pk, o.prefix)
  }

  lemma ContainsIff(text: string, term: string)
    ensures Contains(text, term) <==> Occurs(term, text)
  {
    if Contains(text, term) {
      var i :| 0 <= i <= |text| && term <= text[i..];
      assert text == text[..i] + term + text[i + |term|..];
    }
    if Occurs(term, text) {
      var a, b :| text == a + term + b;
      assert text[|a|..] == term + b;
    }
  }

  /** A slot matches what its keys are found by; that public keys are derived only for some searches, and
      without the secret key, makes no difference. */
  lemma MatchIff<SK(!new), PK>(s: Scheme<SK, PK>, o: Options, pk: PK, sk: Option<SK>, path: string, numbers: seq<int>,
                               text: string, term: string, item: Item<SK, PK>)
    requires Homomorphic(s) && (o.nonObserver ==> sk.Some?) && (sk.Some? ==> pk == s.publicKey(sk.value))
    ensures var k := KeysAt(s, pk, sk, Indexes(numbers, o.nonObserver), text);
            Match(s, o, ChildSlot(s, o, pk, sk, path, numbers), term) == Some(item) <==>
            Finds(s, o, k.pk, k.sk, term, item)
  {
    hide DeriveSk, DerivePk, Homomorphic, Contains, Occurs;
    var k := KeysAt(s, pk, sk, Indexes(numbers, o.nonObserver), text);
    if !o.nonObserver && sk.Some? {
      UnhardenedAgree(s, sk.value, Indexes(numbers, false));
    }
    if k.sk.Some? {
      ContainsIff(s.skText(k.sk.value), term);
    }
    ContainsIff(s.pkText(k.pk), term);
    ContainsIff(s.addressText(k.pk, o.prefix), term);
  }

  // ------------------------------------------------------------ what a term finds at a place

  /** The path of a place under the well-known paths; `n` marks the steps of non-observer keys. */
  ghost function PlacePath(o: Options, account: nat, index: nat): string {
    var n := if o.nonObserver then "n" else "";
    "m/12381" + n + "/8444" + n + "/" + ShowNat(account) + n + "/" + ShowNat(index) + n
  }

  /** What the term finds at a place: in the keys that its path derives, or, below a root path, in the child of
      the keys that the root path derives. */
  ghost predicate FindsAt<SK(!new), PK(!new)>(s: Scheme<SK, PK>, o: Options, key: KeyPair<SK, PK>, root: Option<string>,
                                              account: nat, index: nat, term: string, item: Item<SK, PK>) {
    match root
    case None =>
      var d := Derivation(s, key.pk, PlacePath(o, account, index), key.sk);
      d.Ok? && Finds(s, o, d.value.pk, d.value.sk, term, item)
    case Some(path) =>
      var d := Derivation(s, key.pk, path, key.sk);
      && d.Ok?
      && exists child :: IsChild(s, d.value.pk, d.value.sk, index, o.nonObserver, child) &&
                         Finds(s, o, child.pk, child.sk, term, item)
  }

  /** The path that is printed. */
  ghost predicate PrintsPath<SK, PK>(s: Scheme<SK, PK>, o: Options, key: KeyPair<SK, PK>, root: Option<string>,
                                     account: nat, index: nat, path: string) {
    match root
    case None => path == PlacePath(o, account, index)
    case Some(start) =>
      var d := Derivation(s, key.pk, start, key.sk);
      d.Ok? && path == d.value.path + ShowNat(index) + if o.nonObserver then "n" else ""
  }

  lemma Constants()
    ensures ShowNat(12381) == "12381" && ShowNat(8444) == "8444"
  {
    assert ShowNat(1) == "1" && ShowNat(8) == "8";
    assert ShowNat(12) == "12" && ShowNat(84) == "84";
    assert ShowNat(123) == "123" && ShowNat(844) == "844";
    assert ShowNat(1238) == "1238";
  }

  lemma PlacePathText(o: Options, account: nat, index: nat)
    ensures AccountPath(o, account) + IndexText(o, index) == PlacePath(o, account, index)
  {
    Constants();
    hide ShowNat;
    var n := if o.nonObserver then "n" else "";
    var a, i := ShowNat(account), ShowNat(index);
    assert "m/" + ("12381" + n + "/") + ("8444" + n + "/") + (a + n + "/") + (i + n) ==
           "m/12381" + n + "/8444" + n + "/" + a + n + "/" + i + n;
  }

  lemma WellKnownIff<SK(!new), PK(!new)>(s: Scheme<SK, PK>, o: Options, key: KeyPair<SK, PK>, account: nat, index: nat,
                                         term: string, item: Item<SK, PK>)
    requires Homomorphic(s) && Usable(o, key) && (key.sk.Some? ==> key.pk == s.publicKey(key.sk.value))
    ensures Match(s, o, ChildAt(s, o, key, None, account, index), term) == Some(item) <==>
            FindsAt(s, o, key, None, account, index, term, item)
  {
    var haveSk := key.sk.Some?;
    var steps, last := AccountSteps(o, account), IndexText(o, index);
    AccountPathText(o, account);
    PlacePathText(o, account, index);
    WellKnownPath(o, account, index, haveSk);
    hide ChildSlot, Match, Finds, KeysAt, Steps, ReadSteps, Homomorphic, AccountPath, PlacePath, IndexText;
    MatchIff(s, o, key.pk, key.sk, AccountPath(o, account) + last, [12381, 8444, account] + [index],
             ShowPath(steps + [last]), term, item);
  }

  lemma RootedIff<SK(!new), PK(!new)>(s: Scheme<SK, PK>, o: Options, key: KeyPair<SK, PK>, root: string, account: nat,
                                      index: nat, term: string, item: Item<SK, PK>)
    requires Homomorphic(s) && Usable(o, key) && Derivation(s, key.pk, root, key.sk).Ok?
    ensures Match(s, o, ChildAt(s, o, key, Some(root), account, index), term) == Some(item) <==>
            FindsAt(s, o, key, Some(root), account, index, term, item)
  {
    var d := Derivation(s, key.pk, root, key.sk).value;
    DerivedPublicKey(s, key.pk, root, key.sk);
    hide ChildSlot, Match, Finds, KeysAt, Derivation, Homomorphic, IndexText;
    var step := Index(index, o.nonObserver);
    assert Indexes([] + [index], o.nonObserver) == [step];
    MatchIff(s, o, d.pk, d.sk, d.path + IndexText(o, index), [] + [index], "", term, item);
    OneIndex(s, d.pk, d.sk, step, "");
  }

  /** A place matches a term exactly if the term is found there. */
  lemma PlaceIff<SK(!new), PK(!new)>(s: Scheme<SK, PK>, o: Options, keys: seq<KeyPair<SK, PK>>, root: Option<string>,
                                     p: Place, term: string, item: Item<SK, PK>)
    requires Homomorphic(s) && Paired(s, keys) && Derives(s, o, keys, root) && InSpace(o, keys, root, p)
    ensures Match(s, o, SlotAt(s, o, keys, root, p), term) == Some(item) <==>
            FindsAt(s, o, keys[p.key], root, p.account, p.index, term, item)
  {
    hide Match, FindsAt, Homomorphic, ChildAt, Derivation;
    match root
    case None => WellKnownIff(s, o, keys[p.key], p.account, p.index, term, item);
    case Some(path) => RootedIff(s, o, keys[p.key], path, p.account, p.index, term, item);
  }

  lemma PlacePrints<SK, PK>(s: Scheme<SK, PK>, o: Options, keys: seq<KeyPair<SK, PK>>, root: Option<string>, p: Place)
    requires Derives(s, o, keys, root) && InSpace(o, keys, root, p)
    ensures PrintsPath(s, o, keys[p.key], root, p.account, p.index, SlotAt(s, o, keys, root, p).path)
  {
    hide Derivation, AccountPath, PlacePath, ShowNat;
    PlacePathText(o, p.account, p.index);
  }

  // ------------------------------------------------------------ what a search finds

  /** The places searched: every index below the limit of each of the seven accounts, or of the root path, under
      every key that takes part. A key without its secret half takes no part in a non-observer search. */
  ghost predicate Searched<SK, PK>(o: Options, keys: seq<KeyPair<SK, PK>>, root: Option<string>, p: Place) {
    && p.key < |keys|
    && (keys[p.key].sk.Some? || !o.nonObserver)
    && p.account < (if root.None? then 7 else 1)
    && p.index < o.limit
  }

  /** The report belongs to this place: the first, by key, account and index, where its term is found. */
  ghost predicate FoundFirst<SK(!new), PK(!new)>(s: Scheme<SK, PK>, o: Options, keys: seq<KeyPair<SK, PK>>,
                                                 root: Option<string>, r: Report<SK, PK>, p: Place) {
    && Searched(o, keys, root, p)
    && PrintsPath(s, o, keys[p.key], root, p.account, p.index, r.path)
    && FindsAt(s, o, keys[p.key], root, p.account, p.index, r.term, r.item)
    && forall q, item :: Searched(o, keys, root, q) && Before(q, p) ==>
         !FindsAt(s, o, keys[q.key], root, q.account, q.index, r.term, item)
  }

  ghost predicate FoundNowhere<SK(!new), PK(!new)>(s: Scheme<SK, PK>, o: Options, keys: seq<KeyPair<SK, PK>>,
                                                   root: Option<string>, term: string) {
    forall p, item :: Searched(o, keys, root, p) ==>
      !FindsAt(s, o, keys[p.key], root, p.account, p.index, term, item)
  }

  /** The reports with their places, in the order of the search and at one place in the order of the terms. */
  ghost predicate FoundInOrder<SK(!new), PK(!new)>(s: Scheme<SK, PK>, o: Options, keys: seq<KeyPair<SK, PK>>,
                                                   root: Option<string>, terms: seq<string>,
                                                   reports: seq<Report<SK, PK>>, places: seq<Place>) {
    && |places| == |reports|
    && (forall i :: 0 <= i < |reports| ==> FoundFirst(s, o, keys, root, reports[i], places[i]))
    && forall i, j :: 0 <= i < j < |places| ==>
         || Before(places[i], places[j])
         || (places[i] == places[j] && Ahead(terms, reports[i].term, reports[j].term))
  }

  lemma SearchedIff<SK, PK>(o: Options, keys: seq<KeyPair<SK, PK>>, root: Option<string>, p: Place)
    ensures Searched(o, keys, root, p) <==> InSpace(o, keys, root, p)
  {
  }

  lemma ReportMeans<SK(!new), PK(!new)>(s: Scheme<SK, PK>, o: Options, keys: seq<KeyPair<SK, PK>>, root: Option<string>,
                                        r: Report<SK, PK>, p: Place)
    requires Homomorphic(s) && Paired(s, keys) && ReportOf(s, o, keys, root, r, p)
    ensures FoundFirst(s, o, keys, root, r, p)
  {
    hide Match, SlotAt, FindsAt, PrintsPath, Homomorphic, Paired, Derives, InSpace, Searched;
    SearchedIff(o, keys, root, p);
    PlaceIff(s, o, keys, root, p, r.term, r.item);
    PlacePrints(s, o, keys, root, p);
    forall q, item | Searched(o, keys, root, q) && Before(q, p)
      ensures q.key < |keys| && !FindsAt(s, o, keys[q.key], root, q.account, q.index, r.term, item)
    {
      SearchedIff(o, keys, root, q);
      SearchedKey(o, keys, root, q);
      PlaceIff(s, o, keys, root, q, r.term, item);
    }
    SearchedKey(o, keys, root, p);
  }

  lemma SearchedKey<SK, PK>(o: Options, keys: seq<KeyPair<SK, PK>>, root: Option<string>, p: Place)
    requires Searched(o, keys, root, p)
    ensures p.key < |keys|
  {
  }

  lemma NowhereMeans<SK(!new), PK(!new)>(s: Scheme<SK, PK>, o: Options, keys: seq<KeyPair<SK, PK>>,
                                         root: Option<string>, term: string)
    requires Homomorphic(s) && Paired(s, keys) && Derives(s, o, keys, root)
    ensures !MatchesSomewhere(s, o, keys, root, term) <==> FoundNowhere(s, o, keys, root, term)
  {
    hide Match, SlotAt, FindsAt, Homomorphic, Paired, Derives;
    if MatchesSomewhere(s, o, keys, root, term) {
      var p :| InSpace(o, keys, root, p) && Match(s, o, SlotAt(s, o, keys, root, p), term).Some?;
      PlaceIff(s, o, keys, root, p, term, Match(s, o, SlotAt(s, o, keys, root, p), term).value);
      SearchedIff(o, keys, root, p);
    }
    if !FoundNowhere(s, o, keys, root, term) {
      var p, item :| Searched(o, keys, root, p) && FindsAt(s, o, keys[p.key], root, p.account, p.index, term, item);
      SearchedIff(o, keys, root, p);
      PlaceIff(s, o, keys, root, p, term, item);
    }
  }

  /** A search whose root path, if there is one, can be derived: each term is either reported once, at the first
      place where it is found, or found nowhere and left over. */
  lemma {:induction false} SearchMeaning<SK(!new), PK(!new)>(s: Scheme<SK, PK>, o: Options,
                                                             keys: seq<KeyPair<SK, PK>>, root: Option<string>,
                                                             terms: seq<string>)
    returns (places: seq<Place>)
    requires Homomorphic(s) && Paired(s, keys) && Unique(terms) && Derives(s, o, keys, root)
    ensures SearchKeys(s, o, keys, root, terms).Ok?
    ensures var out := SearchKeys(s, o, keys, root, terms).value;
            && FoundInOrder(s, o, keys, root, terms, out.reports, places)
            && multiset(Terms(out.reports)) + multiset(out.remaining) == multiset(terms)
            && (forall t :: t in terms ==> (t in out.remaining <==> FoundNowhere(s, o, keys, root, t)))
  {
    hide SearchKeys, Homomorphic, Paired, Derives, ReportOf, FoundFirst, FoundNowhere, MatchesSomewhere, Before, Ahead;
    places := SearchFindsFirstPlaces(s, o, keys, root, terms);
    var out := SearchKeys(s, o, keys, root, terms).value;
    forall i | 0 <= i < |places|
      ensures FoundFirst(s, o, keys, root, out.reports[i], places[i])
    {
      ReportMeans(s, o, keys, root, out.reports[i], places[i]);
    }
    forall t | t in terms
      ensures t in out.remaining <==> FoundNowhere(s, o, keys, root, t)
    {
      NowhereMeans(s, o, keys, root, t);
    }
  }
}
