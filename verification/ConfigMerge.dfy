/** `dict_add_new_default`: merging new defaults into a user's configuration tree. */
module ConfigMerge {
  import opened Bytes

  /** A YAML value. An atom is a number, a truth value or null. */
  datatype Value = Dict(items: map<string, Value>) | Str(text: string) | List(elems: seq<Value>) | Atom(code: int)

  /** Python's `k in v`, which raises for an atom. */
  predicate Has(v: Value, k: string)
    requires !v.Atom?
  {
    match v
    case Dict(items) => k in items
    case Str(text) => exists i :: 0 <= i <= |text| && k <= text[i..]
    case List(elems) => Str(k) in elems
  }

  /** A key whose mark is not itself a dictionary keeps the default. */
  predicate Ignored(n: map<string, Value>, k: string) {
    k in n && !n[k].Dict?
  }

  function SubMarks(n: map<string, Value>, k: string): map<string, Value>
    requires !Ignored(n, k)
  {
    if k in n then n[k].items else map[]
  }

  /** The first loop: marked keys are removed. */
  function Popped(u: map<string, Value>, n: map<string, Value>): map<string, Value> {
    map k | k in u && !(k in n && n[k] == Str("")) :: u[k]
  }

  /** When merging into something that is no dictionary does not raise: nothing may be removed, assigned
      or entered. A text or a list that happens to contain every default key passes unnoticed. */
  predicate Tolerates(v: Value, d: map<string, Value>, n: map<string, Value>)
    requires !v.Dict?
  {
    if v.Atom? then |n| == 0 && |d| == 0
    else
      && (forall k :: k in n ==> !(Has(v, k) && n[k] == Str("")))
      && (forall k :: k in d ==> Has(v, k) && !Ignored(n, k) && !d[k].Dict?)
  }

  /** The merged tree, or None if the merge raises. */
  function Merge(u: Value, d: Value, n: map<string, Value>): Option<Value>
    requires d.Dict?
    decreases d, 1
  {
    if !u.Dict? then (if Tolerates(u, d.items, n) then Some(u) else None)
    else
      var u1 := Popped(u.items, n);
      if forall k :: k in d.items ==> MergeKey(u1, d, n, k).Some?
      then Some(Dict(map k | k in u1.Keys + d.items.Keys
                     :: if k in d.items then MergeKey(u1, d, n, k).value else u1[k]))
      else None
  }

  /** The value of one default key after the merge. */
  function MergeKey(u: map<string, Value>, d: Value, n: map<string, Value>, k: string): Option<Value>
    requires d.Dict? && k in d.items
    decreases d, 0
  {
    var v := d.items[k];
    if v.Dict? && k in u && !Ignored(n, k) then Merge(u[k], v, SubMarks(n, k))
    else if k !in u || Ignored(n, k) then Some(v)
    else Some(u[k])
  }

  // ------------------------------------------------------------ the loops

  /** The function as it runs: two loops that pop from and assign into `updated`. */
  method DictAddNewDefault(updated: Value, default: Value, doNotMigrateKeys: map<string, Value>)
    returns (r: Option<Value>)
    requires default.Dict?
    ensures r == Merge(updated, default, doNotMigrateKeys)
    decreases default
  {
    if !updated.Dict? {
      return if Tolerates(updated, default.items, doNotMigrateKeys) then Some(updated) else None;
    }
    var items := PopMarked(updated.items, doNotMigrateKeys);
    ghost var u1 := items;
    var todo := default.items.Keys;
    while todo != {}
      invariant todo <= default.items.Keys
      invariant forall k :: k in default.items && k !in todo ==> MergeKey(u1, default, doNotMigrateKeys, k).Some?
      invariant items.Keys == u1.Keys + (default.items.Keys - todo)
      invariant forall k :: k in items ==>
        items[k] == if k in default.items && k !in todo then MergeKey(u1, default, doNotMigrateKeys, k).value else u1[k]
      decreases todo
    {
      ghost var some := Member(todo);
      var k :| k in todo;
      var v := default.items[k];
      var ignore := k in doNotMigrateKeys && !doNotMigrateKeys[k].Dict?;
      todo := todo - {k};
      if v.Dict? && k in items && !ignore {
        var sub := DictAddNewDefault(items[k], v, if k in doNotMigrateKeys then doNotMigrateKeys[k].items else map[]);
        if sub.None? { return None; }
        items := items[k := sub.value];
      } else if k !in items || ignore {
        items := items[k := v];
      }
    }
    MergedItems(updated, default, doNotMigrateKeys, items);
    r := Some(Dict(items));
  }

  lemma MergedItems(u: Value, d: Value, n: map<string, Value>, items: map<string, Value>)
    requires u.Dict? && d.Dict? && forall k :: k in d.items ==> MergeKey(Popped(u.items, n), d, n, k).Some?
    requires items.Keys == Popped(u.items, n).Keys + d.items.Keys
    requires forall k :: k in items ==>
               items[k] == if k in d.items then MergeKey(Popped(u.items, n), d, n, k).value else Popped(u.items, n)[k]
    ensures Merge(u, d, n) == Some(Dict(items))
  {
    hide MergeKey;
    assert Merge(u, d, n).value.items == items;
  }

  method PopMarked(items: map<string, Value>, marks: map<string, Value>) returns (r: map<string, Value>)
    ensures r == Popped(items, marks)
  {
    r := items;
    var todo := marks.Keys;
    while todo != {}
      invariant todo <= marks.Keys
      invariant r == map k | k in items && !(k in marks && k !in todo && marks[k] == Str("")) :: items[k]
      decreases todo
    {
      ghost var some := Member(todo);
      var k :| k in todo;
      todo := todo - {k};
      if k in r && marks[k] == Str("") {
        r := r - {k};
      }
    }
  }

  // ------------------------------------------------------------ merging by path

  function Child(v: Option<Value>, k: string): Option<Value> {
    if v.Some? && v.value.Dict? && k in v.value.items then Some(v.value.items[k]) else None
  }

  function Lookup(v: Option<Value>, path: seq<string>): Option<Value>
    decreases |path|
  {
    if path == [] then v else Lookup(Child(v, path[0]), path[1..])
  }

  /** A configuration of marks as `unflatten_properties` builds it: dictionaries with empty texts as leaves. */
  predicate ProperMarks(n: map<string, Value>) {
    forall k :: k in n ==> ProperMark(n[k])
  }

  predicate ProperMark(v: Value) {
    v == Str("") || (v.Dict? && forall k :: k in v.items ==> ProperMark(v.items[k]))
  }

  /** What the merge leaves at a path, key by key: a mark gives the default; where only one tree goes on,
      that tree; where both go on into dictionaries, look further; else the user's value. */
  function Chosen(u: Option<Value>, d: Option<Value>, n: map<string, Value>, path: seq<string>): Option<Value>
    requires path != []
    decreases |path|
  {
    var k, rest := path[0], path[1..];
    var uk, dk := Child(u, k), Child(d, k);
    if Ignored(n, k) then Lookup(dk, rest)
    else if uk.None? then Lookup(dk, rest)
    else if dk.None? || !dk.value.Dict? || !uk.value.Dict? then Lookup(uk, rest)
    else if rest == [] then Merge(uk.value, dk.value, SubMarks(n, k))
    else Chosen(uk, dk, SubMarks(n, k), rest)
  }

  lemma {:induction false} MergeByPath(u: Value, d: Value, n: map<string, Value>, path: seq<string>)
    requires d.Dict? && u.Dict? && Merge(u, d, n).Some? && ProperMarks(n) && path != []
    ensures Lookup(Merge(u, d, n), path) == Chosen(Some(u), Some(d), n, path)
    decreases |path|
  {
    var k, rest := path[0], path[1..];
    var m := Merge(u, d, n);
    var u1 := Popped(u.items, n);
    assert Lookup(m, path) == Lookup(Child(m, k), rest);
    if k in d.items {
      assert MergeKey(u1, d, n, k).Some?;
      assert Child(m, k) == MergeKey(u1, d, n, k);
      if d.items[k].Dict? && k in u1 && !Ignored(n, k) && u.items[k].Dict? && rest != [] {
        assert ProperMarks(SubMarks(n, k));
        MergeByPath(u.items[k], d.items[k], SubMarks(n, k), rest);
      }
    } else {
      assert Child(m, k) == if k in u1 then Some(u1[k]) else None;
    }
  }

  /** Some prefix of the path is marked. */
  predicate MarkedAt(n: map<string, Value>, path: seq<string>)
    decreases |path|
  {
    path != [] && path[0] in n && (!n[path[0]].Dict? || MarkedAt(n[path[0]].items, path[1..]))
  }

  /** Every key on the way to the mark leads to a dictionary in the given tree. */
  predicate ReachesMark(v: Option<Value>, n: map<string, Value>, path: seq<string>)
    requires MarkedAt(n, path)
    decreases |path|
  {
    !n[path[0]].Dict? ||
    (Child(v, path[0]).Some? && Child(v, path[0]).value.Dict?
     && ReachesMark(Child(v, path[0]), n[path[0]].items, path[1..]))
  }

  /** A marked path ends at the default value if the default tree reaches the mark. */
  lemma {:induction false} MarkedTakesDefault(u: Option<Value>, d: Option<Value>, n: map<string, Value>,
                                              path: seq<string>)
    requires path != [] && MarkedAt(n, path) && ReachesMark(d, n, path)
    requires u.Some? && u.value.Dict? && d.Some? && d.value.Dict? && Fits(u.value, d.value, n)
    ensures Chosen(u, d, n, path) == Lookup(d, path)
    decreases |path|
  {
    var k, rest := path[0], path[1..];
    if !Ignored(n, k) {
      var uk, dk := Child(u, k), Child(d, k);
      if uk.Some? {
        assert uk.value.Dict?;
        MarkedTakesDefault(uk, dk, n[k].items, rest);
      }
    }
  }

  /** A mark that the default tree does not reach has no effect: the user's tree decides. */
  lemma {:induction false} UnreachedKeepsUser(u: Option<Value>, d: Option<Value>, n: map<string, Value>,
                                              path: seq<string>)
    requires path != [] && MarkedAt(n, path) && !ReachesMark(d, n, path)
    requires u.Some? && u.value.Dict? && d.Some? && d.value.Dict? && Fits(u.value, d.value, n)
    ensures Chosen(u, d, n, path) == Lookup(u, path)
    ensures Lookup(d, path).None?
    decreases |path|
  {
    var k, rest := path[0], path[1..];
    var uk, dk := Child(u, k), Child(d, k);
    NothingBelow(rest);
    if dk.Some? && dk.value.Dict? {
      UnreachedBelow(dk, n[k].items, rest);
      if uk.Some? {
        UnreachedKeepsUser(uk, dk, n[k].items, rest);
      }
    } else if dk.Some? {
      assert Child(dk, rest[0]).None?;
      NothingBelow(rest[1..]);
    }
  }

  lemma {:induction false} UnreachedBelow(d: Option<Value>, n: map<string, Value>, path: seq<string>)
    requires path != [] && MarkedAt(n, path) && !ReachesMark(d, n, path)
    ensures Lookup(d, path).None?
    decreases |path|
  {
    var k, rest := path[0], path[1..];
    var dk := Child(d, k);
    NothingBelow(rest);
    if dk.Some? && dk.value.Dict? {
      UnreachedBelow(dk, n[k].items, rest);
    } else if dk.Some? {
      assert Child(dk, rest[0]).None?;
      NothingBelow(rest[1..]);
    }
  }

  /** Shape compatibility: where the merge enters a dictionary of the defaults, the user has one too. */
  ghost predicate Fits(u: Value, d: Value, n: map<string, Value>)
    requires u.Dict? && d.Dict?
    decreases d
  {
    forall k :: k in d.items && d.items[k].Dict? && k in u.items && (k in n ==> n[k].Dict?) ==>
      u.items[k].Dict? && Fits(u.items[k], d.items[k], if k in n then n[k].items else map[])
  }

  /** Compatible trees never make the merge raise. */
  lemma {:induction false} FittingMerges(u: Value, d: Value, n: map<string, Value>)
    requires u.Dict? && d.Dict? && Fits(u, d, n)
    ensures Merge(u, d, n).Some? && Merge(u, d, n).value.Dict?
    decreases d
  {
    var u1 := Popped(u.items, n);
    forall k | k in d.items
      ensures MergeKey(u1, d, n, k).Some?
    {
      if d.items[k].Dict? && k in u1 && !Ignored(n, k) {
        FittingMerges(u.items[k], d.items[k], SubMarks(n, k));
      }
    }
  }

  /** An unmarked path at which the user has a plain value keeps that value. */
  lemma {:induction false} UserValueKept(u: Option<Value>, d: Option<Value>, n: map<string, Value>, path: seq<string>)
    requires path != [] && !MarkedAt(n, path)
    requires Lookup(u, path).Some? && !Lookup(u, path).value.Dict?
    ensures Chosen(u, d, n, path) == Lookup(u, path)
    decreases |path|
  {
    var k, rest := path[0], path[1..];
    var uk, dk := Child(u, k), Child(d, k);
    if uk.None? {
      NothingBelow(rest);
    } else if dk.Some? && dk.value.Dict? && uk.value.Dict? {
      UserValueKept(uk, dk, SubMarks(n, k), rest);
    }
  }

  predicate HasDict(v: Option<Value>) {
    v.Some? && v.value.Dict?
  }

  /** An unmarked path at which the user has something, tree or plain value, and the defaults have no tree, keeps
      what the user has there. */
  lemma {:induction false} UserOnlyKept(u: Option<Value>, d: Option<Value>, n: map<string, Value>, path: seq<string>)
    requires path != [] && !MarkedAt(n, path)
    requires Lookup(u, path).Some? && !HasDict(Lookup(d, path))
    ensures Chosen(u, d, n, path) == Lookup(u, path)
    decreases |path|
  {
    var k, rest := path[0], path[1..];
    var uk, dk := Child(u, k), Child(d, k);
    if uk.None? {
      NothingBelow(rest);
    } else if dk.Some? && dk.value.Dict? && uk.value.Dict? {
      UserOnlyKept(uk, dk, SubMarks(n, k), rest);
    }
  }

  /** The marks below a path. */
  function MarksBelow(n: map<string, Value>, path: seq<string>): map<string, Value>
    requires !MarkedAt(n, path)
    decreases |path|
  {
    if path == [] then n else MarksBelow(if path[0] in n then n[path[0]].items else map[], path[1..])
  }

  /** An unmarked path at which both have trees ends at the merge of the two, which is a tree. */
  lemma {:induction false} TreesMerged(u: Option<Value>, d: Option<Value>, n: map<string, Value>, path: seq<string>)
    requires path != [] && !MarkedAt(n, path)
    requires HasDict(u) && HasDict(d) && Fits(u.value, d.value, n)
    requires HasDict(Lookup(u, path)) && HasDict(Lookup(d, path))
    ensures HasDict(Chosen(u, d, n, path))
    ensures Chosen(u, d, n, path) == Merge(Lookup(u, path).value, Lookup(d, path).value, MarksBelow(n, path))
    decreases |path|
  {
    var k, rest := path[0], path[1..];
    var uk, dk := Child(u, k), Child(d, k);
    assert Lookup(u, path) == Lookup(uk, rest) && Lookup(d, path) == Lookup(dk, rest);
    NothingBelow(rest);
    if rest == [] {
      assert MarksBelow(n, path) == MarksBelow(SubMarks(n, k), rest) == SubMarks(n, k);
      FittingMerges(uk.value, dk.value, SubMarks(n, k));
    } else {
      assert uk.Some? && dk.Some?;
      PlainEnds(uk, rest);
      PlainEnds(dk, rest);
      TreesMerged(uk, dk, SubMarks(n, k), rest);
    }
  }

  /** Below a plain value there is nothing. */
  lemma PlainEnds(v: Option<Value>, path: seq<string>)
    requires path != [] && Lookup(v, path).Some?
    ensures HasDict(v)
  {
    NothingBelow(path[1..]);
  }

  lemma {:induction false} NothingBelow(path: seq<string>)
    ensures Lookup(None, path) == None
    decreases |path|
  {
    if path != [] {
      NothingBelow(path[1..]);
    }
  }

  /** An unmarked path that the user does not have gets the default, and stays absent if there is none. */
  lemma {:induction false} NewDefaultAdded(u: Option<Value>, d: Option<Value>, n: map<string, Value>, path: seq<string>)
    requires path != [] && !MarkedAt(n, path)
    requires HasDict(u) && HasDict(d) && Fits(u.value, d.value, n) && Lookup(u, path).None?
    ensures Chosen(u, d, n, path) == Lookup(d, path)
    decreases |path|
  {
    var k, rest := path[0], path[1..];
    var uk, dk := Child(u, k), Child(d, k);
    if uk.Some? {
      if dk.None? {
        NothingBelow(rest);
      } else if !dk.value.Dict? {
        assert rest != [];
        assert Child(dk, rest[0]).None?;
        NothingBelow(rest[1..]);
      } else {
        NewDefaultAdded(uk, dk, SubMarks(n, k), rest);
      }
    }
  }

  /** The rules together decide every path of the merged tree, for trees of compatible shape: a mark gives the
      default if the defaults reach it and has no effect otherwise; without a mark the user's value or tree
      stays, two trees are merged, and a path the user lacks gets the default or stays absent. */
  lemma {:induction false} MergeRules(u: Value, d: Value, n: map<string, Value>, path: seq<string>)
    requires u.Dict? && d.Dict? && Fits(u, d, n) && ProperMarks(n) && path != []
    ensures var m, mine, default := Merge(u, d, n), Lookup(Some(u), path), Lookup(Some(d), path);
            && m.Some?
            && if MarkedAt(n, path) then Lookup(m, path) == if ReachesMark(Some(d), n, path) then default else mine
               else if mine.None? then Lookup(m, path) == default
               else if !(HasDict(mine) && HasDict(default)) then Lookup(m, path) == mine
               else HasDict(Lookup(m, path)) && Lookup(m, path) == Merge(mine.value, default.value, MarksBelow(n, path))
  {
    hide Chosen, Lookup, Fits, ProperMarks, Merge;
    var mine, default := Lookup(Some(u), path), Lookup(Some(d), path);
    FittingMerges(u, d, n);
    MergeByPath(u, d, n, path);
    if MarkedAt(n, path) {
      if ReachesMark(Some(d), n, path) {
        MarkedTakesDefault(Some(u), Some(d), n, path);
      } else {
        UnreachedKeepsUser(Some(u), Some(d), n, path);
      }
    } else if mine.None? {
      NewDefaultAdded(Some(u), Some(d), n, path);
    } else if !HasDict(default) {
      UserOnlyKept(Some(u), Some(d), n, path);
    } else if !HasDict(mine) {
      UserValueKept(Some(u), Some(d), n, path);
    } else {
      TreesMerged(Some(u), Some(d), n, path);
    }
  }

  // ------------------------------------------------------------ when the merge raises

  ghost predicate Occurs(k: string, text: string) {
    exists a, b :: text == a + k + b
  }

  /** A value that is no dictionary passes unnoticed if Python neither has to look into an atom nor to change a text
      or a list: every default key is plain, unmarked and already found in it, and no key to remove is. */
  ghost predicate PassesOver(v: Value, d: map<string, Value>, n: map<string, Value>)
    requires !v.Dict?
  {
    match v
    case Atom(_) => d == map[] && n == map[]
    case Str(text) =>
      && (forall k :: k in d ==> Occurs(k, text) && !d[k].Dict? && (k in n ==> n[k].Dict?))
      && forall k :: k in n && Occurs(k, text) ==> n[k] != Str("")
    case List(elems) =>
      && (forall k :: k in d ==> Str(k) in elems && !d[k].Dict? && (k in n ==> n[k].Dict?))
      && forall k :: k in n && Str(k) in elems ==> n[k] != Str("")
    case Dict(_) => false
  }

  lemma PlainMerge(v: Value, d: Value, n: map<string, Value>)
    requires !v.Dict? && d.Dict?
    ensures Merge(v, d, n) == if PassesOver(v, d.items, n) then Some(v) else None
  {
    forall k
      ensures v.Str? ==> (Has(v, k) <==> Occurs(k, v.text))
    {
      if v.Str? {
        HasOccurs(v.text, k);
      }
    }
    hide Has, Occurs;
    EmptyMap(d.items);
    EmptyMap(n);
    if !v.Atom? {
      ListHas(v);
    }
  }

  lemma ListHas(v: Value)
    requires !v.Atom?
    ensures v.List? ==> forall k :: Has(v, k) <==> Str(k) in v.elems
  {
  }

  lemma EmptyMap(m: map<string, Value>)
    ensures |m| == 0 <==> m == map[]
  {
    assert m.Keys == {} <==> m == map[];
  }

  lemma HasOccurs(text: string, k: string)
    ensures Has(Str(text), k) <==> Occurs(k, text)
  {
    if i :| 0 <= i <= |text| && k <= text[i..] {
      assert text == text[..i] + k + text[i + |k|..];
    }
    if a, b :| text == a + k + b {
      assert text[|a|..] == k + b;
    }
  }

  /** At this path, which no mark covers, a tree of the defaults meets a value of the user that is no tree and does
      not pass unnoticed. */
  ghost predicate Clash(u: Value, d: Value, n: map<string, Value>, path: seq<string>) {
    && !MarkedAt(n, path)
    && HasDict(Lookup(Some(d), path))
    && Lookup(Some(u), path).Some?
    && var mine := Lookup(Some(u), path).value;
       !mine.Dict? && !PassesOver(mine, Lookup(Some(d), path).value.items, MarksBelow(n, path))
  }

  lemma ClashBelow(u: Value, d: Value, n: map<string, Value>, k: string, path: seq<string>)
    requires u.Dict? && d.Dict? && k in u.items && k in d.items && d.items[k].Dict? && (k in n ==> n[k].Dict?)
    ensures var below := if k in n then n[k].items else map[];
            Clash(u, d, n, [k] + path) <==> Clash(u.items[k], d.items[k], below, path)
  {
    assert ([k] + path)[1..] == path;
  }

  /** The merge raises exactly if there is such a path. */
  lemma {:induction false} RaisesIff(u: Value, d: Value, n: map<string, Value>)
    requires d.Dict? && ProperMarks(n)
    ensures Merge(u, d, n).None? <==> exists path :: Clash(u, d, n, path)
    decreases d
  {
    hide PassesOver;
    if !u.Dict? {
      PlainMerge(u, d, n);
      assert Clash(u, d, n, []) <==> !PassesOver(u, d.items, n);
      forall path | Clash(u, d, n, path)
        ensures path == []
      {
        if path != [] {
          PlainEnds(Some(u), path);
        }
      }
    } else {
      RaisesBelow(u, d, n);
      TreesRaise(u, d, n);
    }
  }

  /** Where the merge goes down: both trees have the key, the default is a tree, and no mark ends here. */
  ghost predicate Enters(u: Value, d: Value, n: map<string, Value>, k: string)
    requires u.Dict? && d.Dict?
  {
    k in u.items && k in d.items && d.items[k].Dict? && (k in n ==> n[k].Dict?)
  }

  ghost function Below(n: map<string, Value>, k: string): map<string, Value>
    requires k in n ==> n[k].Dict?
  {
    if k in n then n[k].items else map[]
  }

  lemma TreesRaise(u: Value, d: Value, n: map<string, Value>)
    requires u.Dict? && d.Dict? && ProperMarks(n)
    ensures Merge(u, d, n).None? <==>
            exists k :: Enters(u, d, n, k) && Merge(u.items[k], d.items[k], Below(n, k)).None?
  {
    var u1 := Popped(u.items, n);
    forall k | k in d.items
      ensures MergeKey(u1, d, n, k).None? <==>
              Enters(u, d, n, k) && Merge(u.items[k], d.items[k], Below(n, k)).None?
    {
    }
    if k :| k in d.items && MergeKey(u1, d, n, k).None? {
      assert Enters(u, d, n, k);
    }
    if k :| Enters(u, d, n, k) && Merge(u.items[k], d.items[k], Below(n, k)).None? {
      assert k in d.items && MergeKey(u1, d, n, k).None?;
    }
  }

  lemma {:induction false} RaisesBelow(u: Value, d: Value, n: map<string, Value>)
    requires u.Dict? && d.Dict? && ProperMarks(n)
    ensures (exists k :: Enters(u, d, n, k) && Merge(u.items[k], d.items[k], Below(n, k)).None?) <==>
            exists path :: Clash(u, d, n, path)
    decreases d, 0
  {
    hide Merge, Clash;
    if k :| Enters(u, d, n, k) && Merge(u.items[k], d.items[k], Below(n, k)).None? {
      RaisesIff(u.items[k], d.items[k], Below(n, k));
      var path :| Clash(u.items[k], d.items[k], Below(n, k), path);
      ClashBelow(u, d, n, k, path);
    }
    if path :| Clash(u, d, n, path) {
      ClashEnters(u, d, n, path);
      var k, rest := path[0], path[1..];
      assert path == [k] + rest;
      ClashBelow(u, d, n, k, rest);
      RaisesIff(u.items[k], d.items[k], Below(n, k));
    }
  }

  lemma ClashEnters(u: Value, d: Value, n: map<string, Value>, path: seq<string>)
    requires u.Dict? && d.Dict? && Clash(u, d, n, path)
    ensures path != [] && Enters(u, d, n, path[0])
  {
    if path != [] {
      var k, rest := path[0], path[1..];
      NothingBelow(rest);
      assert Lookup(Some(d), path) == Lookup(Child(Some(d), k), rest);
      assert k in d.items;
      if rest == [] {
        assert Lookup(Some(d), path) == Some(d.items[k]);
      } else {
        PlainEnds(Some(d.items[k]), rest);
      }
    }
  }

  /** A mark below a key that the defaults do not have is never reached: the user's value survives. */
  lemma UnreachedMarkSurvives(a: string, b: string, x: Value)
    ensures var u := Dict(map[a := Dict(map[b := x])]);
            var n := map[a := Dict(map[b := Str("")])];
            && MarkedAt(n, [a, b])
            && Merge(u, Dict(map[]), n) == Some(u)
            && Lookup(Merge(u, Dict(map[]), n), [a, b]) == Some(x)
  {
    var inner := Dict(map[b := x]);
    var u := Dict(map[a := inner]);
    var n := map[a := Dict(map[b := Str("")])];
    assert [a, b][1..] == [b] && [b][1..] == [];
    assert Popped(u.items, n) == u.items;
    assert Merge(u, Dict(map[]), n).value.items == u.items;
    assert Lookup(Some(u), [a, b]) == Lookup(Some(inner), [b]) == Lookup(Some(x), []);
  }

  // ------------------------------------------------------------ merging again

  /** Merging the defaults into themselves changes nothing. */
  lemma {:induction false} MergeSelf(d: Value, n: map<string, Value>)
    requires d.Dict?
    ensures Merge(d, d, n) == Some(d)
    decreases d
  {
    var u1 := Popped(d.items, n);
    forall k | k in d.items
      ensures MergeKey(u1, d, n, k) == Some(d.items[k])
    {
      if d.items[k].Dict? && k in u1 && !Ignored(n, k) {
        MergeSelf(d.items[k], SubMarks(n, k));
      }
    }
    assert Merge(d, d, n).value.items == d.items;
  }

  /** Merging a second time with freshly loaded defaults changes nothing. */
  lemma {:induction false} MergeIdempotent(u: Value, d: Value, n: map<string, Value>)
    requires d.Dict? && Merge(u, d, n).Some?
    ensures Merge(Merge(u, d, n).value, d, n) == Merge(u, d, n)
    decreases d
  {
    if u.Dict? {
      var m := Merge(u, d, n).value;
      var u1, m1 := Popped(u.items, n), Popped(m.items, n);
      forall k | k in d.items
        ensures MergeKey(m1, d, n, k) == Some(m.items[k])
      {
        assert m.items[k] == MergeKey(u1, d, n, k).value;
        if d.items[k].Dict? && k in m1 && !Ignored(n, k) {
          if k in u1 {
            MergeIdempotent(u1[k], d.items[k], SubMarks(n, k));
          } else {
            MergeSelf(d.items[k], SubMarks(n, k));
          }
        }
      }
      assert Merge(m, d, n).value.items == m.items;
    }
  }
}
