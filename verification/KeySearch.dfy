/** `_search_derived` and `search_derive`: nested searches for derived keys that contain search terms. */
module KeySearch {
  import opened Bytes
  import opened HdPath

  // ------------------------------------------------------------ what is searched

  datatype Options = Options(
    limit: int,
    nonObserver: bool,
    searchPublicKey: bool,
    searchPrivateKey: bool,
    searchAddress: bool,
    prefix: string)

  datatype Item<SK, PK> = FoundSk(sk: SK) | FoundPk(pk: PK) | FoundAddress(text: string)

  /** A line printed for a match. */
  datatype Report<SK, PK> = Report(term: string, item: Item<SK, PK>, path: string)

  /** One place of the search space: the path text and the keys derived there. */
  datatype Slot<SK, PK> = Slot(path: string, pk: Option<PK>, sk: Option<SK>)

  predicate Contains(text: string, term: string) {
    exists i :: 0 <= i <= |text| && term <= text[i..]
  }

  /** What a term matches at a slot: the private key first, then the public key, then the address. */
  function Match<SK, PK>(s: Scheme<SK, PK>, o: Options, slot: Slot<SK, PK>, term: string): Option<Item<SK, PK>> {
    if o.searchPrivateKey && slot.sk.Some? && Contains(s.skText(slot.sk.value), term) then Some(FoundSk(slot.sk.value))
    else if o.searchPublicKey && slot.pk.Some? && Contains(s.pkText(slot.pk.value), term)
         then Some(FoundPk(slot.pk.value))
    else if o.searchAddress && slot.pk.Some? && Contains(s.addressText(slot.pk.value, o.prefix), term) then
      Some(FoundAddress(s.addressText(slot.pk.value, o.prefix)))
    else None
  }

  /** A list of plain indexes, all derived the same way. */
  function Indexes(numbers: seq<int>, hardened: bool): seq<Index> {
    seq(|numbers|, i requires 0 <= i < |numbers| => Index(numbers[i], hardened))
  }

  function ChildSlot<SK, PK>(s: Scheme<SK, PK>, o: Options, pk: PK, sk: Option<SK>, path: string,
                             numbers: seq<int>): Slot<SK, PK>
    requires o.nonObserver ==> sk.Some?
  {
    var needPk := o.searchPublicKey || o.searchAddress;
    var steps := Indexes(numbers, o.nonObserver);
    if o.nonObserver then
      var child := DeriveSk(s, sk.value, steps);
      Slot(path, if needPk then Some(s.publicKey(child)) else None, Some(child))
    else
      Slot(path,
           if needPk then Some(DerivePk(s, pk, steps)) else None,
           if o.searchPrivateKey && sk.Some? then Some(DeriveSk(s, sk.value, steps)) else None)
  }

  function IndexText(o: Options, index: nat): string {
    ShowNat(index) + if o.nonObserver then "n" else ""
  }

  /** The slots of a shallow search, from an index on. */
  function Slots<SK, PK>(s: Scheme<SK, PK>, o: Options, pk: PK, sk: Option<SK>, path: string, numbers: seq<int>,
                         index: nat): seq<Slot<SK, PK>>
    requires o.nonObserver ==> sk.Some?
    decreases o.limit - index
  {
    if index >= o.limit then []
    else
      [ChildSlot(s, o, pk, sk, path + IndexText(o, index), numbers + [index])]
      + Slots(s, o, pk, sk, path, numbers, index + 1)
  }

  // ------------------------------------------------------------ the reference search

  datatype Outcome<SK, PK> = Outcome(reports: seq<Report<SK, PK>>, remaining: seq<string>)

  function Hits<SK, PK>(s: Scheme<SK, PK>, o: Options, slot: Slot<SK, PK>, terms: seq<string>): seq<Report<SK, PK>> {
    if terms == [] then []
    else
      var item := Match(s, o, slot, terms[0]);
      (if item.Some? then [Report(terms[0], item.value, slot.path)] else []) + Hits(s, o, slot, terms[1..])
  }

  function Misses<SK, PK>(s: Scheme<SK, PK>, o: Options, slot: Slot<SK, PK>, terms: seq<string>): seq<string> {
    if terms == [] then []
    else (if Match(s, o, slot, terms[0]).None? then [terms[0]] else []) + Misses(s, o, slot, terms[1..])
  }

  /** Visit every slot in order; a term is looked for until its first match. */
  function Search<SK, PK>(s: Scheme<SK, PK>, o: Options, slots: seq<Slot<SK, PK>>, terms: seq<string>): Outcome<SK, PK>
    decreases |slots|
  {
    if slots == [] then Outcome([], terms)
    else Then(Hits(s, o, slots[0], terms), Search(s, o, slots[1..], Misses(s, o, slots[0], terms)))
  }

  function Then<SK, PK>(reports: seq<Report<SK, PK>>, rest: Outcome<SK, PK>): Outcome<SK, PK> {
    Outcome(reports + rest.reports, rest.remaining)
  }

  // ------------------------------------------------------------ ordered sets of terms

  ghost predicate Unique(terms: seq<string>) {
    forall i, j :: 0 <= i < j < |terms| ==> terms[i] != terms[j]
  }

  /** `dict.fromkeys(terms)`: each term once, in order of first appearance. */
  function Dedup(terms: seq<string>): (r: seq<string>)
    ensures Unique(r) && forall t :: t in r <==> t in terms
  {
    if terms == [] then []
    else
      var n := |terms| - 1;
      var r := Dedup(terms[..n]);
      assert terms == terms[..n] + [terms[n]];
      if terms[n] in r then r else r + [terms[n]]
  }

  /** Terms keep the order of their first appearance. */
  lemma {:induction false} DedupOrder(terms: seq<string>, i: nat, j: nat)
    requires i < j < |Dedup(terms)|
    ensures exists a :: 0 <= a < |terms| && terms[a] == Dedup(terms)[i] && Dedup(terms)[j] !in terms[..a]
    decreases |terms|
  {
    var n := |terms| - 1;
    var init, r := Dedup(terms[..n]), Dedup(terms);
    assert terms == terms[..n] + [terms[n]];
    if j < |init| {
      DedupOrder(terms[..n], i, j);
      var a :| 0 <= a < n && terms[..n][a] == init[i] && init[j] !in terms[..n][..a];
      assert terms[..n][..a] == terms[..a];
      assert terms[a] == r[i];
    } else {
      assert r[i] in init && r[i] in terms[..n];
      var a :| 0 <= a < n && terms[..n][a] == r[i];
      assert terms[a] == r[i] && terms[n] !in terms[..n];
      assert forall t :: t in terms[..a] ==> t in terms[..n];
    }
  }

  /** `del remaining[term]`. */
  function Without(terms: seq<string>, term: string): seq<string> {
    if terms == [] then []
    else (if terms[0] == term then [] else [terms[0]]) + Without(terms[1..], term)
  }

  function WithoutAll(terms: seq<string>, found: seq<string>): seq<string>
    decreases |found|
  {
    if found == [] then terms else WithoutAll(Without(terms, found[0]), found[1..])
  }

  /** The terms that satisfy a condition, in order. */
  function Keep(terms: seq<string>, keep: string -> bool): seq<string> {
    if terms == [] then []
    else (if keep(terms[0]) then [terms[0]] else []) + Keep(terms[1..], keep)
  }

  lemma {:induction false} KeepKeep(terms: seq<string>, p: string -> bool, q: string -> bool)
    ensures Keep(Keep(terms, p), q) == Keep(terms, t => p(t) && q(t))
    decreases |terms|
  {
    if terms != [] {
      KeepKeep(terms[1..], p, q);
      var head := if p(terms[0]) then [terms[0]] else [];
      var tail := Keep(terms[1..], p);
      assert head == [] ==> head + tail == tail;
      assert p(terms[0]) ==> (head + tail)[1..] == tail;
    }
  }

  lemma {:induction false} KeepSame(terms: seq<string>, p: string -> bool, q: string -> bool)
    requires forall t :: t in terms ==> p(t) == q(t)
    ensures Keep(terms, p) == Keep(terms, q)
    decreases |terms|
  {
    if terms != [] {
      assert forall t :: t in terms[1..] ==> t in terms;
      KeepSame(terms[1..], p, q);
    }
  }

  lemma {:induction false} KeepIn(terms: seq<string>, p: string -> bool, t: string)
    ensures t in Keep(terms, p) <==> t in terms && p(t)
    decreases |terms|
  {
    if terms != [] {
      KeepIn(terms[1..], p, t);
      assert terms == [terms[0]] + terms[1..];
    }
  }

  lemma {:induction false} KeepUnique(terms: seq<string>, p: string -> bool)
    requires Unique(terms)
    ensures Unique(Keep(terms, p))
    decreases |terms|
  {
    if terms != [] {
      KeepUnique(terms[1..], p);
      KeepIn(terms[1..], p, terms[0]);
    }
  }

  lemma {:induction false} KeepAll(terms: seq<string>, p: string -> bool)
    requires forall t :: t in terms ==> p(t)
    ensures Keep(terms, p) == terms
    decreases |terms|
  {
    if terms != [] {
      assert terms == [terms[0]] + terms[1..];
      assert forall t :: t in terms[1..] ==> t in terms;
      KeepAll(terms[1..], p);
    }
  }

  lemma {:induction false} WithoutIsKeep(terms: seq<string>, term: string)
    ensures Without(terms, term) == Keep(terms, t => t != term)
    decreases |terms|
  {
    if terms != [] {
      WithoutIsKeep(terms[1..], term);
    }
  }

  /** Deleting terms one by one keeps exactly the others. */
  lemma {:induction false} WithoutAllIsKeep(terms: seq<string>, found: seq<string>)
    ensures WithoutAll(terms, found) == Keep(terms, t => t !in found)
    decreases |found|
  {
    if found == [] {
      KeepAll(terms, t => t !in found);
    } else {
      WithoutIsKeep(terms, found[0]);
      WithoutAllIsKeep(Without(terms, found[0]), found[1..]);
      KeepKeep(terms, t => t != found[0], t => t !in found[1..]);
      assert found == [found[0]] + found[1..];
      KeepSame(terms, t => (t != found[0]) && (t !in found[1..]), t => t !in found);
      KeepSame(terms, t => (u => u != found[0])(t) && (u => u !in found[1..])(t), t => t !in found);
    }
  }

  lemma {:induction false} MissesIsKeep<SK, PK>(s: Scheme<SK, PK>, o: Options, slot: Slot<SK, PK>, terms: seq<string>)
    ensures Misses(s, o, slot, terms) == Keep(terms, t => Match(s, o, slot, t).None?)
    decreases |terms|
  {
    if terms != [] {
      MissesIsKeep(s, o, slot, terms[1..]);
    }
  }

  function Terms<SK, PK>(reports: seq<Report<SK, PK>>): seq<string> {
    seq(|reports|, i requires 0 <= i < |reports| => reports[i].term)
  }

  /** The terms hit at a slot. */
  lemma {:induction false} HitsIsKeep<SK, PK>(s: Scheme<SK, PK>, o: Options, slot: Slot<SK, PK>, terms: seq<string>)
    ensures Terms(Hits(s, o, slot, terms)) == Keep(terms, t => Match(s, o, slot, t).Some?)
    ensures forall r :: r in Hits(s, o, slot, terms) ==>
            r.path == slot.path && Match(s, o, slot, r.term) == Some(r.item)
    decreases |terms|
  {
    if terms != [] {
      HitsIsKeep(s, o, slot, terms[1..]);
      var item := Match(s, o, slot, terms[0]);
      var head := if item.Some? then [Report(terms[0], item.value, slot.path)] else [];
      var tail := Hits(s, o, slot, terms[1..]);
      assert Terms(head + tail) == Terms(head) + Terms(tail);
    }
  }

  // ------------------------------------------------------------ the reference search finds first matches

  /** The first slot that matches a term, or the number of slots. */
  function FirstMatch<SK, PK>(s: Scheme<SK, PK>, o: Options, slots: seq<Slot<SK, PK>>, term: string): (i: nat)
    ensures i <= |slots|
    ensures i < |slots| ==> Match(s, o, slots[i], term).Some?
    ensures forall j :: 0 <= j < i ==> Match(s, o, slots[j], term).None?
  {
    if slots == [] || Match(s, o, slots[0], term).Some? then 0
    else
      var i := FirstMatch(s, o, slots[1..], term);
      assert forall j :: 1 <= j < 1 + i ==> slots[j] == slots[1..][j - 1];
      1 + i
  }

  /** The one report a term gets. */
  ghost predicate ReportedAt<SK, PK>(s: Scheme<SK, PK>, o: Options, slots: seq<Slot<SK, PK>>, r: Report<SK, PK>) {
    var i := FirstMatch(s, o, slots, r.term);
    i < |slots| && r.path == slots[i].path && Match(s, o, slots[i], r.term) == Some(r.item)
  }

  lemma FirstMatchCons<SK, PK>(s: Scheme<SK, PK>, o: Options, slots: seq<Slot<SK, PK>>, term: string)
    requires slots != []
    ensures FirstMatch(s, o, slots, term) ==
            if Match(s, o, slots[0], term).Some? then 0 else 1 + FirstMatch(s, o, slots[1..], term)
  {
    hide Match;
  }

  /** A report at the first slot, and one from the slots after it. */
  lemma ReportCons<SK, PK>(s: Scheme<SK, PK>, o: Options, slots: seq<Slot<SK, PK>>, r: Report<SK, PK>)
    requires slots != []
    ensures r.path == slots[0].path && Match(s, o, slots[0], r.term) == Some(r.item) ==> ReportedAt(s, o, slots, r)
    ensures Match(s, o, slots[0], r.term).None? && ReportedAt(s, o, slots[1..], r) ==> ReportedAt(s, o, slots, r)
  {
    hide Match, FirstMatch;
    FirstMatchCons(s, o, slots, r.term);
  }

  lemma {:induction false} SearchReports<SK, PK>(s: Scheme<SK, PK>, o: Options, slots: seq<Slot<SK, PK>>,
                                                 terms: seq<string>)
    ensures var out := Search(s, o, slots, terms);
            && (forall r :: r in out.reports ==> ReportedAt(s, o, slots, r))
            && out.remaining == Keep(terms, t => FirstMatch(s, o, slots, t) == |slots|)
    decreases |slots|
  {
    hide Match, FirstMatch, ReportedAt, Hits, Misses;
    if slots == [] {
      KeepAll(terms, t => FirstMatch(s, o, slots, t) == |slots|);
    } else {
      var misses := Misses(s, o, slots[0], terms);
      SearchReports(s, o, slots[1..], misses);
      HitsIsKeep(s, o, slots[0], terms);
      MissesIsKeep(s, o, slots[0], terms);
      SearchTermsLeft(s, o, slots[1..], misses);
      forall r | r in Search(s, o, slots, terms).reports
        ensures ReportedAt(s, o, slots, r)
      {
        ReportCons(s, o, slots, r);
        KeepIn(terms, t => Match(s, o, slots[0], t).None?, r.term);
      }
      LeftOver(s, o, slots, terms);
    }
  }

  /** A term left over is missed at the first slot and left over by the others. */
  lemma LeftOver<SK, PK>(s: Scheme<SK, PK>, o: Options, slots: seq<Slot<SK, PK>>, terms: seq<string>)
    requires slots != []
    ensures Keep(Keep(terms, t => Match(s, o, slots[0], t).None?),
                 t => FirstMatch(s, o, slots[1..], t) == |slots[1..]|) ==
            Keep(terms, t => FirstMatch(s, o, slots, t) == |slots|)
  {
    hide Match, FirstMatch, Keep;
    var p := (t: string) => Match(s, o, slots[0], t).None?;
    var q := (t: string) => FirstMatch(s, o, slots[1..], t) == |slots[1..]|;
    KeepKeep(terms, p, q);
    forall t | t in terms
      ensures (p(t) && q(t)) == (FirstMatch(s, o, slots, t) == |slots|)
    {
      FirstMatchCons(s, o, slots, t);
    }
    KeepSame(terms, t => p(t) && q(t), t => FirstMatch(s, o, slots, t) == |slots|);
  }

  /** Reports name only terms that were searched for. */
  lemma {:induction false} SearchTermsLeft<SK, PK>(s: Scheme<SK, PK>, o: Options, slots: seq<Slot<SK, PK>>,
                                                   terms: seq<string>)
    ensures forall r :: r in Search(s, o, slots, terms).reports ==> r.term in terms
    decreases |slots|
  {
    if slots != [] {
      HitsIsKeep(s, o, slots[0], terms);
      MissesIsKeep(s, o, slots[0], terms);
      var misses := Misses(s, o, slots[0], terms);
      SearchTermsLeft(s, o, slots[1..], misses);
      var hits := Hits(s, o, slots[0], terms);
      forall r | r in Search(s, o, slots, terms).reports
        ensures r.term in terms
      {
        if r in hits {
          var i :| 0 <= i < |hits| && hits[i] == r;
          assert Terms(hits)[i] == r.term;
          KeepIn(terms, t => Match(s, o, slots[0], t).Some?, r.term);
        } else {
          KeepIn(terms, t => Match(s, o, slots[0], t).None?, r.term);
        }
      }
    }
  }

  /** x stands before y. */
  ghost predicate Ahead(terms: seq<string>, x: string, y: string) {
    exists a, b :: 0 <= a < b < |terms| && terms[a] == x && terms[b] == y
  }

  /** Reports come in the order of the slots, and at one slot in the order of the terms. */
  ghost predicate InOrder<SK, PK>(s: Scheme<SK, PK>, o: Options, slots: seq<Slot<SK, PK>>, terms: seq<string>,
                                  reports: seq<Report<SK, PK>>) {
    forall i, j :: 0 <= i < j < |reports| ==>
      var a, b := FirstMatch(s, o, slots, reports[i].term), FirstMatch(s, o, slots, reports[j].term);
      a < b || (a == b && Ahead(terms, reports[i].term, reports[j].term))
  }

  lemma {:induction false} KeepAhead(terms: seq<string>, p: string -> bool, x: string, y: string)
    requires Ahead(Keep(terms, p), x, y)
    ensures Ahead(terms, x, y)
    decreases |terms|
  {
    var kept, rest := Keep(terms, p), Keep(terms[1..], p);
    var a, b :| 0 <= a < b < |kept| && kept[a] == x && kept[b] == y;
    if p(terms[0]) && a == 0 {
      assert kept[b] == rest[b - 1];
      KeepIn(terms[1..], p, y);
      var c :| 0 <= c < |terms[1..]| && terms[1..][c] == y;
      assert terms[0] == x && terms[c + 1] == y;
    } else {
      var d := if p(terms[0]) then 1 else 0;
      assert rest[a - d] == x && rest[b - d] == y;
      KeepAhead(terms[1..], p, x, y);
      var e, f :| 0 <= e < f < |terms[1..]| && terms[1..][e] == x && terms[1..][f] == y;
      assert terms[e + 1] == x && terms[f + 1] == y;
    }
  }

  lemma {:induction false} SearchOrdered<SK, PK>(s: Scheme<SK, PK>, o: Options, slots: seq<Slot<SK, PK>>,
                                                 terms: seq<string>)
    ensures InOrder(s, o, slots, terms, Search(s, o, slots, terms).reports)
    decreases |slots|
  {
    hide Match, FirstMatch, Hits, Misses, Ahead, Keep;
    if slots != [] {
      var hits, misses := Hits(s, o, slots[0], terms), Misses(s, o, slots[0], terms);
      var rest := Search(s, o, slots[1..], misses);
      SearchOrdered(s, o, slots[1..], misses);
      HitsIsKeep(s, o, slots[0], terms);
      MissesIsKeep(s, o, slots[0], terms);
      SearchTermsLeft(s, o, slots[1..], misses);
      var all := hits + rest.reports;
      forall i, j | 0 <= i < j < |all|
        ensures var a, b := FirstMatch(s, o, slots, all[i].term), FirstMatch(s, o, slots, all[j].term);
                a < b || (a == b && Ahead(terms, all[i].term, all[j].term))
      {
        ReportsOrdered(s, o, slots, terms, i, j);
      }
    }
  }

  lemma ReportsOrdered<SK, PK>(s: Scheme<SK, PK>, o: Options, slots: seq<Slot<SK, PK>>, terms: seq<string>, i: nat,
                               j: nat)
    requires slots != []
    requires var hits, misses := Hits(s, o, slots[0], terms), Misses(s, o, slots[0], terms);
             var later := Search(s, o, slots[1..], misses).reports;
             && Terms(hits) == Keep(terms, t => Match(s, o, slots[0], t).Some?)
             && misses == Keep(terms, t => Match(s, o, slots[0], t).None?)
             && (forall r :: r in hits ==> Match(s, o, slots[0], r.term).Some?)
             && (forall r :: r in later ==> r.term in misses)
             && InOrder(s, o, slots[1..], misses, later)
             && i < j < |hits + later|
    ensures var all := Hits(s, o, slots[0], terms) + Search(s, o, slots[1..], Misses(s, o, slots[0], terms)).reports;
            var a, b := FirstMatch(s, o, slots, all[i].term), FirstMatch(s, o, slots, all[j].term);
            a < b || (a == b && Ahead(terms, all[i].term, all[j].term))
  {
    hide Match, FirstMatch, Hits, Misses, Search, Keep;
    var hits, misses := Hits(s, o, slots[0], terms), Misses(s, o, slots[0], terms);
    var later := Search(s, o, slots[1..], misses).reports;
    var x: Report<SK, PK> := (hits + later)[i];
    var y: Report<SK, PK> := (hits + later)[j];
    FirstMatchCons(s, o, slots, x.term);
    FirstMatchCons(s, o, slots, y.term);
    var missed := (t: string) => Match(s, o, slots[0], t).None?;
    if j < |hits| {
      assert x in hits && y in hits;
      assert Terms(hits)[i] == x.term && Terms(hits)[j] == y.term;
      assert Ahead(Terms(hits), x.term, y.term);
      KeepAhead(terms, t => Match(s, o, slots[0], t).Some?, x.term, y.term);
    } else {
      assert y == later[j - |hits|] && y in later;
      KeepIn(terms, missed, y.term);
      if i < |hits| {
        assert x in hits;
      } else {
        assert x == later[i - |hits|] && x in later;
        KeepIn(terms, missed, x.term);
        if FirstMatch(s, o, slots[1..], x.term) == FirstMatch(s, o, slots[1..], y.term) {
          KeepAhead(terms, missed, x.term, y.term);
        }
      }
    }
  }

  /** Found and remaining terms partition the terms searched for. */
  lemma {:induction false} SearchPartitions<SK, PK>(s: Scheme<SK, PK>, o: Options, slots: seq<Slot<SK, PK>>,
                                                    terms: seq<string>)
    ensures var out := Search(s, o, slots, terms);
            multiset(Terms(out.reports)) + multiset(out.remaining) == multiset(terms)
    decreases |slots|
  {
    hide Match;
    if slots == [] {
      assert Terms(Search(s, o, slots, terms).reports) == [];
    } else {
      var hits, misses := Hits(s, o, slots[0], terms), Misses(s, o, slots[0], terms);
      var rest := Search(s, o, slots[1..], misses);
      HitsIsKeep(s, o, slots[0], terms);
      MissesIsKeep(s, o, slots[0], terms);
      KeepPartitions(terms, t => Match(s, o, slots[0], t).Some?, t => Match(s, o, slots[0], t).None?);
      SearchPartitions(s, o, slots[1..], misses);
      TermsConcat(hits, rest.reports);
    }
  }

  lemma TermsConcat<SK, PK>(a: seq<Report<SK, PK>>, b: seq<Report<SK, PK>>)
    ensures Terms(a + b) == Terms(a) + Terms(b)
    ensures multiset(Terms(a + b)) == multiset(Terms(a)) + multiset(Terms(b))
  {
    assert Terms(a + b) == Terms(a) + Terms(b);
  }

  lemma {:induction false} KeepPartitions(terms: seq<string>, p: string -> bool, q: string -> bool)
    requires forall t :: q(t) == !p(t)
    ensures multiset(Keep(terms, p)) + multiset(Keep(terms, q)) == multiset(terms)
    decreases |terms|
  {
    if terms != [] {
      KeepPartitions(terms[1..], p, q);
      KeepCount(terms, p);
      KeepCount(terms, q);
      assert terms == [terms[0]] + terms[1..];
      assert multiset(terms) == multiset{terms[0]} + multiset(terms[1..]);
    }
  }

  lemma KeepCount(terms: seq<string>, p: string -> bool)
    requires terms != []
    ensures multiset(Keep(terms, p)) == (if p(terms[0]) then multiset{terms[0]} else multiset{})
            + multiset(Keep(terms[1..], p))
  {
  }

  /** The reference search, told without it: each term of a set of distinct terms is reported at most
      once, at its first match and with what it matches there; it is left over exactly if it matches
      nowhere; and nothing else is reported. */
  lemma FirstMatchSearch<SK, PK>(s: Scheme<SK, PK>, o: Options, slots: seq<Slot<SK, PK>>, terms: seq<string>)
    requires Unique(terms)
    ensures var out := Search(s, o, slots, terms);
            && (forall r :: r in out.reports ==> r.term in terms && ReportedAt(s, o, slots, r))
            && Unique(Terms(out.reports))
            && (forall t :: t in terms ==> (t in Terms(out.reports) <==> FirstMatch(s, o, slots, t) < |slots|))
            && (forall t :: t in out.remaining <==> t in terms && FirstMatch(s, o, slots, t) == |slots|)
            && multiset(Terms(out.reports)) + multiset(out.remaining) == multiset(terms)
            && (out.remaining == [] <==> forall t :: t in terms ==> FirstMatch(s, o, slots, t) < |slots|)
  {
    hide Search, FirstMatch, Match, ReportedAt, Keep;
    var out := Search(s, o, slots, terms);
    var q := (t: string) => FirstMatch(s, o, slots, t) == |slots|;
    SearchReports(s, o, slots, terms);
    SearchTermsLeft(s, o, slots, terms);
    SearchPartitions(s, o, slots, terms);
    forall t
      ensures t in out.remaining <==> t in terms && FirstMatch(s, o, slots, t) == |slots|
    {
      KeepIn(terms, q, t);
    }
    UniqueMultiset(terms);
    var found := Terms(out.reports);
    forall t | t in terms
      ensures t in found <==> FirstMatch(s, o, slots, t) < |slots|
    {
      KeepUnique(terms, q);
      UniqueMultiset(out.remaining);
      assert multiset(terms)[t] == 1;
      assert multiset(found)[t] + multiset(out.remaining)[t] == 1;
      assert t in multiset(found) <==> t in found;
      assert t in multiset(out.remaining) <==> t in out.remaining;
    }
    forall t
      ensures multiset(found)[t] <= 1
    {
      assert multiset(found)[t] <= multiset(terms)[t];
    }
    MultisetUnique(found);
    assert out.remaining == [] || out.remaining[0] in out.remaining;
  }

  lemma {:induction false} UniqueMultiset(terms: seq<string>)
    requires Unique(terms)
    ensures forall t :: multiset(terms)[t] == if t in terms then 1 else 0
    decreases |terms|
  {
    if terms != [] {
      UniqueMultiset(terms[1..]);
      assert terms == [terms[0]] + terms[1..];
      assert multiset(terms) == multiset{terms[0]} + multiset(terms[1..]);
    }
  }

  lemma {:induction false} MultisetUnique(terms: seq<string>)
    requires forall t :: multiset(terms)[t] <= 1
    ensures Unique(terms)
    decreases |terms|
  {
    if terms != [] {
      assert terms == [terms[0]] + terms[1..];
      assert multiset(terms) == multiset{terms[0]} + multiset(terms[1..]);
      forall t
        ensures multiset(terms[1..])[t] <= 1
      {
        assert multiset(terms)[t] <= 1;
      }
      MultisetUnique(terms[1..]);
      assert terms[0] !in terms[1..] by {
        assert multiset(terms)[terms[0]] <= 1;
        assert multiset(terms[1..])[terms[0]] == 0;
      }
    }
  }
}
