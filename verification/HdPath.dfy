/** HD paths: `derive_pk_and_sk_from_hd_path`, its path syntax and the keys it derives. */
module HdPath {
  import opened AsciiText
  import opened Bytes

  // ------------------------------------------------------------ numbers as text

  predicate IsDigit(c: char) {
    '0' <= c <= '9'
  }

  function DigitOf(c: char): nat
    requires IsDigit(c)
  {
    c as int - '0' as int
  }

  /** The digits of Python's `int(text)`; single underscores may stand between digits. `ready` tells
      whether the last character was a digit. */
  function ReadDigits(s: string, acc: nat, ready: bool): Option<nat>
    decreases |s|
  {
    if s == [] then (if ready then Some(acc) else None)
    else if IsDigit(s[0]) then ReadDigits(s[1..], 10 * acc + DigitOf(s[0]), true)
    else if s[0] == '_' && ready then ReadDigits(s[1..], acc, false)
    else None
  }

  /** Python's `int(text)` on ASCII text; None is the ValueError. */
  function ReadInt(s: string): Option<int> {
    var t := Trim(s);
    var signed := t != [] && (t[0] == '-' || t[0] == '+');
    match ReadDigits(if signed then t[1..] else t, 0, false)
    case None => None
    case Some(n) => Some(if signed && t[0] == '-' then 0 - n else n)
  }

  /** Python's `str(n)`. */
  function ShowNat(n: nat): (s: string)
    ensures s != [] && forall i :: 0 <= i < |s| ==> IsDigit(s[i])
  {
    (if n < 10 then [] else ShowNat(n / 10)) + [(n % 10 + '0' as int) as char]
  }

  lemma {:induction false} ReadOneMore(s: string, d: char, acc: nat, ready: bool)
    requires s != [] && (forall i :: 0 <= i < |s| ==> IsDigit(s[i])) && IsDigit(d)
    ensures ReadDigits(s, acc, ready).Some?
    ensures ReadDigits(s + [d], acc, ready) == Some(10 * ReadDigits(s, acc, ready).value + DigitOf(d))
    decreases |s|
  {
    assert (s + [d])[1..] == s[1..] + [d];
    if |s| == 1 {
      assert s[1..] == [] && s[1..] + [d] == [d] && [d][1..] == [];
      var v := 10 * acc + DigitOf(s[0]);
      assert ReadDigits([d], v, true) == ReadDigits([], 10 * v + DigitOf(d), true);
    } else {
      ReadOneMore(s[1..], d, 10 * acc + DigitOf(s[0]), true);
    }
  }

  lemma {:induction false} ReadShown(n: nat)
    ensures ReadDigits(ShowNat(n), 0, false) == Some(n)
    decreases n
  {
    var d := (n % 10 + '0' as int) as char;
    if n < 10 {
      assert ShowNat(n) == [d];
    } else {
      ReadShown(n / 10);
      ReadOneMore(ShowNat(n / 10), d, 0, false);
    }
  }

  /** Reading back a printed number. */
  lemma {:induction false} ReadShow(n: nat)
    ensures ReadInt(ShowNat(n)) == Some(n)
  {
    var s := ShowNat(n);
    assert [] + s == s;
    TrimPadded([], s);
    ReadShown(n);
    assert Trim(s) == s;
    assert IsDigit(s[0]);
    assert s[0] != '-' && s[0] != '+';
    assert ReadDigits(s, 0, false) == Some(n);
    hide Trim, ReadDigits, ShowNat;
  }

  // ------------------------------------------------------------ which texts are numbers

  /** Digits, with at most one underscore after each. */
  ghost predicate Digits(s: string) {
    && (s != [] ==> '0' <= s[0] <= '9')
    && (forall i :: 0 <= i < |s| ==> '0' <= s[i] <= '9' || s[i] == '_')
    && forall i :: 1 <= i < |s| ==> !(s[i - 1] == '_' && s[i] == '_')
  }

  /** A numeral also ends with a digit. */
  ghost predicate Numeral(s: string) {
    s != [] && Digits(s) && s[|s| - 1] != '_'
  }

  /** The decimal value of the digits. */
  ghost function Decimal(s: string): nat
    requires Digits(s)
  {
    if s == [] then 0
    else
      var init, last := s[..|s| - 1], s[|s| - 1];
      if last == '_' then Decimal(init) else 10 * Decimal(init) + (last as int - '0' as int)
  }

  /** Where reading stands after some digits. */
  ghost function Partial(s: string, acc: nat, ready: bool): Option<(nat, bool)>
    decreases |s|
  {
    if s == [] then Some((acc, ready))
    else if IsDigit(s[0]) then Partial(s[1..], 10 * acc + DigitOf(s[0]), true)
    else if s[0] == '_' && ready then Partial(s[1..], acc, false)
    else None
  }

  lemma {:induction false} PartialLast(s: string, c: char, acc: nat, ready: bool)
    ensures Partial(s + [c], acc, ready) ==
            match Partial(s, acc, ready)
            case None => None
            case Some((v, r)) =>
              if IsDigit(c) then Some((10 * v + DigitOf(c), true)) else if c == '_' && r then Some((v, false)) else None
    decreases |s|
  {
    var t := s + [c];
    if s == [] {
      assert t == [c] && t[1..] == [];
    } else {
      assert t[0] == s[0] && t[1..] == s[1..] + [c];
      if IsDigit(s[0]) {
        PartialLast(s[1..], c, 10 * acc + DigitOf(s[0]), true);
      } else if s[0] == '_' && ready {
        PartialLast(s[1..], c, acc, false);
      }
    }
  }

  lemma {:induction false} PartialReads(s: string, acc: nat, ready: bool)
    ensures ReadDigits(s, acc, ready) ==
            match Partial(s, acc, ready)
            case None => None
            case Some((v, r)) => if r then Some(v) else None
    decreases |s|
  {
    if s != [] {
      if IsDigit(s[0]) {
        PartialReads(s[1..], 10 * acc + DigitOf(s[0]), true);
      } else if s[0] == '_' && ready {
        PartialReads(s[1..], acc, false);
      }
    }
  }

  lemma {:induction false} PartialMeaning(s: string)
    ensures Partial(s, 0, false).Some? <==> Digits(s)
    ensures Digits(s) ==> Partial(s, 0, false) == Some((Decimal(s), s != [] && s[|s| - 1] != '_'))
    decreases |s|
  {
    if s != [] {
      var init, last := s[..|s| - 1], s[|s| - 1];
      PartialMeaning(init);
      assert s == init + [last];
      PartialLast(init, last, 0, false);
      DigitsLast(init, last);
    }
  }

  lemma DigitsLast(s: string, c: char)
    ensures Digits(s + [c]) <==> Digits(s) && (IsDigit(c) || (c == '_' && s != [] && s[|s| - 1] != '_'))
  {
    var t := s + [c];
    assert t[|s|] == c;
    if Digits(t) {
      assert forall i :: 0 <= i < |s| ==> t[i] == s[i];
    }
  }

  ghost predicate Signed(s: string, a: string, sign: string, digits: string, b: string) {
    && s == a + sign + digits + b
    && AllSpace(a) && AllSpace(b)
    && (sign == "" || sign == "+" || sign == "-")
    && Numeral(digits)
  }

  ghost function SignedValue(sign: string, digits: string): int
    requires Digits(digits)
  {
    if sign == "-" then 0 - Decimal(digits) else Decimal(digits)
  }

  lemma ReadDigitsIff(s: string)
    ensures ReadDigits(s, 0, false) == if Numeral(s) then Some(Decimal(s)) else None
  {
    PartialReads(s, 0, false);
    PartialMeaning(s);
  }

  lemma SignedReads(s: string, a: string, sign: string, digits: string, b: string)
    requires Signed(s, a, sign, digits, b)
    ensures ReadInt(s) == Some(SignedValue(sign, digits))
  {
    hide Trim, Digits, Decimal, ReadDigits, AllSpace;
    TrimSigned(s, a, sign, digits, b);
    ReadDigitsIff(digits);
    var t := sign + digits;
    if sign == "" {
      assert t == digits && t[0] != '-' && t[0] != '+';
    } else {
      assert t[0] == sign[0] && t[1..] == digits;
    }
  }

  lemma ReadsSigned(s: string) returns (a: string, sign: string, digits: string, b: string)
    requires ReadInt(s).Some?
    ensures Signed(s, a, sign, digits, b) && ReadInt(s) == Some(SignedValue(sign, digits))
  {
    hide Trim, Digits, Decimal, ReadDigits, AllSpace;
    var t := Trim(s);
    var signed := t != [] && (t[0] == '-' || t[0] == '+');
    sign, digits := if signed then t[..1] else "", if signed then t[1..] else t;
    ReadDigitsIff(digits);
    a, b := TrimParts(s);
    assert t == sign + digits;
    assert a + t + b == a + sign + digits + b;
  }

  /** Exactly the numerals with an optional sign and white space around them are numbers. */
  lemma {:induction false} ReadIntIff(s: string, v: int)
    ensures ReadInt(s) == Some(v) <==>
            exists a, sign, digits, b :: Signed(s, a, sign, digits, b) && v == SignedValue(sign, digits)
  {
    hide ReadInt, SignedValue, Digits;
    if ReadInt(s) == Some(v) {
      var a, sign, digits, b := ReadsSigned(s);
    }
    if a, sign, digits, b :| Signed(s, a, sign, digits, b) && v == SignedValue(sign, digits) {
      SignedReads(s, a, sign, digits, b);
    }
  }

  ghost predicate Surrounds(s: string, a: string, t: string, b: string) {
    s == a + t + b && AllSpace(a) && AllSpace(b)
  }

  lemma TrimParts(s: string) returns (a: string, b: string)
    ensures Surrounds(s, a, Trim(s), b)
  {
    var e := TrimEnd(s);
    var t := TrimStart(e);
    hide TrimEnd, TrimStart;
    a, b := e[..|e| - |t|], s[|e|..];
    assert s == e + b && e == a + t;
  }

  lemma TrimSigned(s: string, a: string, sign: string, digits: string, b: string)
    requires Signed(s, a, sign, digits, b)
    ensures Trim(s) == sign + digits && '0' <= digits[0] <= '9'
  {
    var t := sign + digits;
    assert digits[|digits| - 1] != '_';
    assert s == (a + t) + b;
    TrimEndPad(a + t, b);
    TrimStartPad(a, t);
  }

  // ------------------------------------------------------------ splitting and joining

  /** Python's `text.split(sep)`. */
  function Split(s: string, sep: char): (parts: seq<string>)
    ensures parts != []
  {
    if s == [] then [[]]
    else
      var rest := Split(s[1..], sep);
      if s[0] == sep then [[]] + rest else [[s[0]] + rest[0]] + rest[1..]
  }

  /** Python's `sep.join(parts)`. */
  function Join(parts: seq<string>, sep: char): string {
    if parts == [] then []
    else if |parts| == 1 then parts[0]
    else parts[0] + [sep] + Join(parts[1..], sep)
  }

  ghost predicate Plain(part: string) {
    '/' !in part
  }

  ghost predicate AllPlain(parts: seq<string>) {
    forall i :: 0 <= i < |parts| ==> Plain(parts[i])
  }

  lemma {:induction false} SplitIsPlain(s: string)
    ensures AllPlain(Split(s, '/'))
    decreases |s|
  {
    if s != [] {
      SplitIsPlain(s[1..]);
    }
  }

  lemma {:induction false} SplitPlain(part: string)
    requires Plain(part)
    ensures Split(part, '/') == [part]
    decreases |part|
  {
    if part != [] {
      SplitPlain(part[1..]);
      assert [part[0]] + part[1..] == part;
    }
  }

  lemma {:induction false} SplitFirst(part: string, rest: string)
    requires Plain(part)
    ensures Split(part + ['/'] + rest, '/') == [part] + Split(rest, '/')
    decreases |part|
  {
    var s := part + ['/'] + rest;
    if part == [] {
      assert s == ['/'] + rest && s[1..] == rest;
    } else {
      assert s[1..] == part[1..] + ['/'] + rest;
      SplitFirst(part[1..], rest);
      assert [part[0]] + part[1..] == part;
    }
  }

  lemma {:induction false} SplitJoin(parts: seq<string>)
    requires parts != [] && AllPlain(parts)
    ensures Split(Join(parts, '/'), '/') == parts
    decreases |parts|
  {
    if |parts| == 1 {
      SplitPlain(parts[0]);
    } else {
      SplitFirst(parts[0], Join(parts[1..], '/'));
      SplitJoin(parts[1..]);
      assert [parts[0]] + parts[1..] == parts;
    }
  }

  // ------------------------------------------------------------ path syntax

  datatype PathError = NotRooted | EmptyIndex | HardenedWithoutKey | BadNumber(text: string)

  /** One step of a path: a child index and whether it is derived with hardening (non-observer). */
  datatype Index = Index(number: int, hardened: bool)

  /** The text of the steps of a path: without the leading `m` and one trailing slash. */
  function Steps(path: string): Result<seq<string>, PathError> {
    var parts := Split(path, '/');
    if parts[0] != "m" then Err(NotRooted)
    else
      Ok(DropEmptyLast(parts[1..]))
  }

  /** A trailing slash leaves an empty last part, which is ignored. */
  function DropEmptyLast(steps: seq<string>): seq<string> {
    if |steps| > 0 && steps[|steps| - 1] == [] then steps[..|steps| - 1] else steps
  }

  /** Each step after a slash. */
  ghost function Slashed(steps: seq<string>): string {
    if steps == [] then [] else ['/'] + steps[0] + Slashed(steps[1..])
  }

  lemma JoinHead(head: string, parts: seq<string>)
    requires parts != []
    ensures Join([head + parts[0]] + parts[1..], '/') == head + Join(parts, '/')
  {
    var longer := [head + parts[0]] + parts[1..];
    assert longer[0] == head + parts[0] && longer[1..] == parts[1..];
    if |parts| == 1 {
      assert longer == [head + parts[0]];
    } else {
      Regroup(head, parts[0], ['/'], Join(parts[1..], '/'));
    }
  }

  lemma Regroup(a: string, b: string, c: string, d: string)
    ensures a + (b + c + d) == (a + b) + c + d
  {
  }

  lemma {:induction false} JoinSplit(s: string)
    ensures Join(Split(s, '/'), '/') == s
    decreases |s|
  {
    if s != [] {
      JoinSplit(s[1..]);
      var rest := Split(s[1..], '/');
      assert s == [s[0]] + s[1..];
      if s[0] == '/' {
        assert ([[]] + rest)[1..] == rest;
      } else {
        JoinHead([s[0]], rest);
      }
    }
  }

  lemma {:induction false} JoinSlashed(first: string, steps: seq<string>)
    ensures Join([first] + steps, '/') == first + Slashed(steps)
    decreases |steps|
  {
    assert ([first] + steps)[1..] == steps;
    if steps != [] {
      JoinSlashed(steps[0], steps[1..]);
      assert [steps[0]] + steps[1..] == steps;
      assert first + ['/'] + (steps[0] + Slashed(steps[1..])) == first + (['/'] + steps[0] + Slashed(steps[1..]));
    }
  }

  lemma {:induction false} SlashedLast(steps: seq<string>, last: string)
    ensures Slashed(steps + [last]) == Slashed(steps) + ['/'] + last
    decreases |steps|
  {
    if steps == [] {
      assert steps + [last] == [last] && [last][1..] == [];
      assert ['/'] + last + [] == [] + ['/'] + last;
    } else {
      assert (steps + [last])[1..] == steps[1..] + [last];
      SlashedLast(steps[1..], last);
      var h, t := ['/'] + steps[0], Slashed(steps[1..]);
      assert h + (t + ['/'] + last) == h + t + ['/'] + last;
    }
  }

  /** A path is `m` followed by its steps, each after a slash, and possibly one more slash. */
  ghost predicate PathOf(path: string, steps: seq<string>) {
    && AllPlain(steps)
    && (|| (path == "m" + Slashed(steps) && (steps != [] ==> steps[|steps| - 1] != []))
        || path == "m" + Slashed(steps) + "/")
  }

  lemma {:induction false} StepsIff(path: string, steps: seq<string>)
    ensures Steps(path) == Ok(steps) <==> PathOf(path, steps)
  {
    hide Split, Slashed, AllPlain;
    if Steps(path) == Ok(steps) {
      PathOfSteps(path, steps);
    }
    if PathOf(path, steps) {
      StepsOfPath(path, steps);
    }
  }

  lemma SlashAtEnd(steps: seq<string>)
    ensures "m" + Slashed(steps + [[]]) == "m" + Slashed(steps) + "/"
  {
    SlashedLast(steps, []);
    assert "m" + (Slashed(steps) + ['/'] + []) == "m" + Slashed(steps) + "/";
  }

  lemma PathOfParts(path: string, parts: seq<string>)
    requires AllPlain(parts) && path == "m" + Slashed(parts)
    ensures PathOf(path, DropEmptyLast(parts))
  {
    hide Slashed;
    var steps := DropEmptyLast(parts);
    if steps != parts {
      assert parts == steps + [[]];
      SlashAtEnd(steps);
    }
  }

  lemma TailPlain(parts: seq<string>)
    requires parts != [] && AllPlain(parts)
    ensures AllPlain(parts[1..]) && parts == [parts[0]] + parts[1..]
  {
  }

  lemma PathOfSteps(path: string, steps: seq<string>)
    requires Steps(path) == Ok(steps)
    ensures PathOf(path, steps)
  {
    hide Split, Slashed, AllPlain, Join, PathOf, DropEmptyLast;
    var parts := Split(path, '/');
    SplitIsPlain(path);
    TailPlain(parts);
    JoinSplit(path);
    JoinSlashed("m", parts[1..]);
    PathOfParts(path, parts[1..]);
  }

  lemma StepsOfPath(path: string, steps: seq<string>)
    requires PathOf(path, steps)
    ensures Steps(path) == Ok(steps)
  {
    hide Split, Slashed;
    var exact := path == "m" + Slashed(steps) && (steps != [] ==> steps[|steps| - 1] != []);
    var all := if exact then steps else steps + [[]];
    SlashAtEnd(steps);
    assert path == "m" + Slashed(all);
    JoinSlashed("m", all);
    SplitJoin(["m"] + all);
    assert (["m"] + all)[1..] == all;
    assert (steps + [[]])[..|steps|] == steps;
  }

  function ReadStep(step: string, haveSk: bool): Result<Index, PathError> {
    if step == [] then Err(EmptyIndex)
    else
      var hardened := step[|step| - 1] == 'n';
      if hardened && !haveSk then Err(HardenedWithoutKey)
      else
        var digits := if hardened then step[..|step| - 1] else step;
        match ReadInt(digits)
        case None => Err(BadNumber(digits))
        case Some(n) => Ok(Index(n, hardened))
  }

  /** The steps read in order; the first that cannot be read decides the error. */
  function ReadSteps(steps: seq<string>, haveSk: bool): Result<seq<Index>, PathError>
    decreases |steps|
  {
    if steps == [] then Ok([])
    else
      match ReadStep(steps[0], haveSk)
      case Err(e) => Err(e)
      case Ok(index) =>
        match ReadSteps(steps[1..], haveSk)
        case Err(e) => Err(e)
        case Ok(more) => Ok([index] + more)
  }

  function ShowPath(steps: seq<string>): string {
    "m/" + Join(steps, '/') + "/"
  }

  // ------------------------------------------------------------ keys

  /** The foreign key arithmetic: hardened and unhardened child derivation, and the three texts that
      a search looks into. */
  datatype Scheme<!SK, !PK> = Scheme(
    hardened: (SK, int) -> SK,
    unhardened: (SK, int) -> SK,
    unhardenedPk: (PK, int) -> PK,
    publicKey: SK -> PK,
    skText: SK -> string,
    pkText: PK -> string,
    addressText: (PK, string) -> string)

  /** Unhardened derivation commutes with taking the public key. */
  ghost predicate Homomorphic<SK(!new), PK>(s: Scheme<SK, PK>) {
    forall sk, i :: s.publicKey(s.unhardened(sk, i)) == s.unhardenedPk(s.publicKey(sk), i)
  }

  function DeriveSk<SK, PK>(s: Scheme<SK, PK>, sk: SK, path: seq<Index>): SK
    decreases |path|
  {
    if path == [] then sk
    else DeriveSk(s,
                  if path[0].hardened then s.hardened(sk, path[0].number) else s.unhardened(sk, path[0].number),
                  path[1..])
  }

  function DerivePk<SK, PK>(s: Scheme<SK, PK>, pk: PK, path: seq<Index>): PK
    decreases |path|
  {
    if path == [] then pk else DerivePk(s, s.unhardenedPk(pk, path[0].number), path[1..])
  }

  datatype Derived<SK, PK> = Derived(pk: PK, sk: Option<SK>, path: string)

  /** The keys at the end of a path. */
  function KeysAt<SK, PK>(s: Scheme<SK, PK>, pk: PK, sk: Option<SK>, path: seq<Index>, text: string): Derived<SK, PK> {
    if sk.Some? then
      var child := DeriveSk(s, sk.value, path);
      Derived(s.publicKey(child), Some(child), text)
    else Derived(DerivePk(s, pk, path), None, text)
  }

  function Derivation<SK, PK>(s: Scheme<SK, PK>, pk: PK, root: string,
                              sk: Option<SK>): Result<Derived<SK, PK>, PathError> {
    match Steps(root)
    case Err(e) => Err(e)
    case Ok(steps) =>
      match ReadSteps(steps, sk.Some?)
      case Err(e) => Err(e)
      case Ok(path) => Ok(KeysAt(s, pk, sk, path, ShowPath(steps)))
  }

  function Prefixed(done: seq<Index>, rest: Result<seq<Index>, PathError>): Result<seq<Index>, PathError> {
    match rest
    case Err(e) => Err(e)
    case Ok(more) => Ok(done + more)
  }

  lemma ReadNothing(r: Result<seq<Index>, PathError>)
    ensures Prefixed([], r) == r
  {
    if r.Ok? {
      assert [] + r.value == r.value;
    }
  }

  lemma ReadNext(path: seq<string>, i: nat, done: seq<Index>, haveSk: bool)
    requires i < |path|
    ensures Prefixed(done, ReadSteps(path[i..], haveSk)) ==
            match ReadStep(path[i], haveSk)
            case Err(e) => Err(e)
            case Ok(index) => Prefixed(done + [index], ReadSteps(path[i + 1..], haveSk))
  {
    hide ReadStep;
    assert path[i..][0] == path[i] && path[i..][1..] == path[i + 1..];
    if ReadStep(path[i], haveSk).Ok? && ReadSteps(path[i + 1..], haveSk).Ok? {
      var x, y := [ReadStep(path[i], haveSk).value], ReadSteps(path[i + 1..], haveSk).value;
      assert done + (x + y) == done + x + y;
    }
  }

  lemma ReadDone(rest: seq<string>, done: seq<Index>, haveSk: bool)
    requires rest == []
    ensures Prefixed(done, ReadSteps(rest, haveSk)) == Ok(done)
  {
    assert done + [] == done;
  }

  method DerivePkAndSkFromHdPath<SK, PK>(s: Scheme<SK, PK>, masterPk: PK, hdPathRoot: string, masterSk: Option<SK>)
    returns (r: Result<Derived<SK, PK>, PathError>)
    ensures r == Derivation(s, masterPk, hdPathRoot, masterSk)
  {
    hide ReadSteps, ReadInt, Split, Join, Prefixed;
    var path := Split(hdPathRoot, '/');
    if |path| == 0 || path[0] != "m" { return Err(NotRooted); }
    path := path[1..];
    if |path| > 0 && path[|path| - 1] == [] {
      path := path[..|path| - 1];
    }
    var indexAndDerivationTypes: seq<Index> := [];
    assert path[0..] == path;
    ReadNothing(ReadSteps(path, masterSk.Some?));
    var i := 0;
    while i < |path|
      invariant 0 <= i <= |path|
      invariant ReadSteps(path, masterSk.Some?) ==
                Prefixed(indexAndDerivationTypes, ReadSteps(path[i..], masterSk.Some?))
    {
      var currentIndexStr := path[i];
      ReadNext(path, i, indexAndDerivationTypes, masterSk.Some?);
      if |currentIndexStr| == 0 { return Err(EmptyIndex); }
      var nonObserver := currentIndexStr[|currentIndexStr| - 1] == 'n';
      if nonObserver && masterSk.None? { return Err(HardenedWithoutKey); }
      var digits := if nonObserver then currentIndexStr[..|currentIndexStr| - 1] else currentIndexStr;
      var currentIndex := ReadInt(digits);
      if currentIndex.None? { return Err(BadNumber(digits)); }
      indexAndDerivationTypes := indexAndDerivationTypes + [Index(currentIndex.value, nonObserver)];
      i := i + 1;
    }
    ReadDone(path[i..], indexAndDerivationTypes, masterSk.Some?);
    ghost var indexes := indexAndDerivationTypes;
    var k := 0;
    if masterSk.Some? {
      var currentSk := masterSk.value;
      while k < |indexAndDerivationTypes|
        invariant 0 <= k <= |indexes| && indexes[0..] == indexes
        invariant DeriveSk(s, masterSk.value, indexes) == DeriveSk(s, currentSk, indexes[k..])
      {
        var step := indexAndDerivationTypes[k];
        assert indexes[k..][0] == step && indexes[k..][1..] == indexes[k + 1..];
        if step.hardened {
          currentSk := s.hardened(currentSk, step.number);
        } else {
          currentSk := s.unhardened(currentSk, step.number);
        }
        k := k + 1;
      }
      r := Ok(Derived(s.publicKey(currentSk), Some(currentSk), "m/" + Join(path, '/') + "/"));
    } else {
      var currentPk := masterPk;
      while k < |indexAndDerivationTypes|
        invariant 0 <= k <= |indexes| && indexes[0..] == indexes
        invariant DerivePk(s, masterPk, indexes) == DerivePk(s, currentPk, indexes[k..])
      {
        assert indexes[k..][0] == indexAndDerivationTypes[k] && indexes[k..][1..] == indexes[k + 1..];
        currentPk := s.unhardenedPk(currentPk, indexAndDerivationTypes[k].number);
        k := k + 1;
      }
      r := Ok(Derived(currentPk, None, "m/" + Join(path, '/') + "/"));
    }
  }

  // ------------------------------------------------------------ refused paths

  /** What is wrong with a path that is refused with this error. */
  ghost predicate PathRefused(root: string, haveSk: bool, error: PathError) {
    match error
    case NotRooted => forall steps :: !PathOf(root, steps)
    case EmptyIndex => exists steps :: PathOf(root, steps) && [] in steps
    case HardenedWithoutKey =>
      !haveSk && exists steps, i :: PathOf(root, steps) && 0 <= i < |steps| && steps[i] != [] && EndsWithN(steps[i])
    case BadNumber(text) =>
      && ReadInt(text).None?
      && exists steps :: PathOf(root, steps) && (text in steps || text + "n" in steps)
  }

  ghost predicate EndsWithN(step: string)
    requires step != []
  {
    step[|step| - 1] == 'n'
  }

  lemma {:induction false} FirstBadStep(steps: seq<string>, haveSk: bool) returns (i: nat)
    requires ReadSteps(steps, haveSk).Err?
    ensures i < |steps| && ReadStep(steps[i], haveSk) == Err(ReadSteps(steps, haveSk).error)
    ensures ReadSteps(steps[..i], haveSk).Ok?
    decreases |steps|
  {
    hide ReadStep;
    if ReadStep(steps[0], haveSk).Err? {
      i := 0;
    } else {
      i := FirstBadStep(steps[1..], haveSk);
      assert steps[..i + 1][1..] == steps[1..][..i];
      i := i + 1;
    }
  }

  /** A path is refused for a fault that it has. */
  lemma {:induction false} RefusedPath<SK, PK>(s: Scheme<SK, PK>, pk: PK, root: string, sk: Option<SK>)
    requires Derivation(s, pk, root, sk).Err?
    ensures PathRefused(root, sk.Some?, Derivation(s, pk, root, sk).error)
  {
    hide PathOf, ReadInt, Steps;
    match Steps(root)
    case Err(e) =>
      StepsErr(root);
      forall steps
        ensures !PathOf(root, steps)
      {
        StepsIff(root, steps);
      }
    case Ok(steps) =>
      StepsIff(root, steps);
      var i := FirstBadStep(steps, sk.Some?);
      var step := steps[i];
      assert step in steps;
      if step != [] && EndsWithN(step) {
        assert step == step[..|step| - 1] + "n";
      }
  }

  lemma StepsErr(path: string)
    ensures Steps(path).Err? ==> Steps(path).error == NotRooted
  {
  }

  // ------------------------------------------------------------ observers and owners agree

  ghost predicate AllUnhardened(path: seq<Index>) {
    forall i :: 0 <= i < |path| ==> !path[i].hardened
  }

  lemma {:induction false} UnhardenedAgree<SK(!new), PK>(s: Scheme<SK, PK>, sk: SK, path: seq<Index>)
    requires Homomorphic(s) && AllUnhardened(path)
    ensures s.publicKey(DeriveSk(s, sk, path)) == DerivePk(s, s.publicKey(sk), path)
    decreases |path|
  {
    if path != [] {
      UnhardenedAgree(s, s.unhardened(sk, path[0].number), path[1..]);
    }
  }

  /** A path that can be read without the secret key has no hardened step, and reads the same with it. */
  lemma {:induction false} ObserverSteps(steps: seq<string>)
    requires ReadSteps(steps, false).Ok?
    ensures ReadSteps(steps, true) == ReadSteps(steps, false)
    ensures AllUnhardened(ReadSteps(steps, false).value)
    decreases |steps|
  {
    if steps != [] {
      ObserverSteps(steps[1..]);
    }
  }

  lemma {:induction false} OwnerSteps(steps: seq<string>)
    requires ReadSteps(steps, true).Ok?
    ensures ReadSteps(steps, false).Ok? <==> AllUnhardened(ReadSteps(steps, true).value)
    decreases |steps|
  {
    if steps != [] {
      OwnerSteps(steps[1..]);
      var path := ReadSteps(steps, true).value;
      assert path[1..] == ReadSteps(steps[1..], true).value;
      assert AllUnhardened(path) <==> !path[0].hardened && AllUnhardened(path[1..]) by {
        assert path == [path[0]] + path[1..];
      }
    }
  }

  /** The holder of the secret key and an observer with only the public key derive the same public key
      and the same path text, and the observer succeeds exactly on the paths without hardened steps. */
  lemma {:induction false} ObserverAgrees<SK(!new), PK>(s: Scheme<SK, PK>, sk: SK, root: string)
    requires Homomorphic(s)
    ensures var owner := Derivation(s, s.publicKey(sk), root, Some(sk));
            var observer := Derivation(s, s.publicKey(sk), root, None);
            && (observer.Ok? ==>
                  owner.Ok? && owner.value.pk == observer.value.pk && owner.value.path == observer.value.path)
            && (owner.Ok? ==> (observer.Ok? <==> AllUnhardened(ReadSteps(Steps(root).value, true).value)))
  {
    if Steps(root).Ok? {
      var steps := Steps(root).value;
      if ReadSteps(steps, false).Ok? {
        ObserverSteps(steps);
        UnhardenedAgree(s, sk, ReadSteps(steps, false).value);
      }
      if ReadSteps(steps, true).Ok? {
        OwnerSteps(steps);
      }
    }
  }

  // ------------------------------------------------------------ the path text

  lemma StepsPlain(root: string)
    requires Steps(root).Ok?
    ensures AllPlain(Steps(root).value)
  {
    SplitIsPlain(root);
  }

  lemma Reassociated(a: string, b: string, c: string, d: string, e: string)
    ensures (a + b + c) + d + e == a + b + (c + d + e)
  {
  }

  /** Splitting a path text with something appended. */
  lemma {:induction false} SplitAppended(steps: seq<string>, rest: string)
    requires steps != [] && AllPlain(steps)
    ensures Split(Join(steps, '/') + ['/'] + rest, '/') == steps + Split(rest, '/')
    decreases |steps|
  {
    if |steps| == 1 {
      SplitFirst(steps[0], rest);
    } else {
      var tail := Join(steps[1..], '/');
      Reassociated(steps[0], ['/'], tail, ['/'], rest);
      SplitFirst(steps[0], tail + ['/'] + rest);
      SplitAppended(steps[1..], rest);
      assert [steps[0]] + (steps[1..] + Split(rest, '/')) == steps + Split(rest, '/');
    }
  }

  /** The steps of a shown path with more text appended. */
  lemma StepsAppended(steps: seq<string>, rest: string)
    requires steps != [] && AllPlain(steps)
    ensures Split(ShowPath(steps) + rest, '/') == ["m"] + steps + Split(rest, '/')
  {
    var inner := Join(steps, '/') + ['/'] + rest;
    assert ShowPath(steps) + rest == "m" + ['/'] + inner by {
      assert "m/" == "m" + ['/'];
    }
    SplitFirst("m", inner);
    SplitAppended(steps, rest);
  }

  lemma StepsOfShown(steps: seq<string>)
    requires steps != [] && AllPlain(steps)
    ensures Steps(ShowPath(steps)) == Ok(steps)
  {
    StepsAppended(steps, "");
    assert ShowPath(steps) + "" == ShowPath(steps);
    var parts := Split(ShowPath(steps), '/');
    assert parts == ["m"] + steps + [[]];
    assert parts[1..] == steps + [[]];
    assert (steps + [[]])[..|steps|] == steps;
  }

  lemma RootText()
    ensures ShowPath([]) == "m//" && Steps("m//") == Ok([""])
  {
    var t := "m//";
    assert ShowPath([]) == "m/" + [] + "/" == t;
    assert t == "m" + ['/'] + "/";
    SplitFirst("m", "/");
    assert "/" == [] + ['/'] + [];
    SplitFirst([], []);
    assert Split(t, '/') == ["m", "", ""];
  }

  /** The path text that is returned reads back to the same keys and the same text, except for the root
      path, whose text `m//` is refused. */
  lemma {:induction false} PathTextReparses<SK, PK>(s: Scheme<SK, PK>, pk: PK, root: string, sk: Option<SK>)
    requires Derivation(s, pk, root, sk).Ok?
    ensures var d := Derivation(s, pk, root, sk).value;
            if Steps(root).value != [] then Derivation(s, pk, d.path, sk) == Ok(d)
            else d.path == "m//" && Derivation(s, pk, d.path, sk) == Err(EmptyIndex)
  {
    var steps := Steps(root).value;
    StepsPlain(root);
    if steps != [] {
      StepsOfShown(steps);
    } else {
      RootText();
    }
  }

  // ------------------------------------------------------------ composition

  lemma {:induction false} ReadStepsConcat(a: seq<string>, b: seq<string>, haveSk: bool)
    requires ReadSteps(a, haveSk).Ok? && ReadSteps(b, haveSk).Ok?
    ensures ReadSteps(a + b, haveSk) == Ok(ReadSteps(a, haveSk).value + ReadSteps(b, haveSk).value)
    decreases |a|
  {
    hide ReadStep;
    if a == [] {
      assert a + b == b;
      var z := ReadSteps(b, haveSk).value;
      assert [] + z == z;
    } else {
      assert (a + b)[1..] == a[1..] + b;
      ReadStepsConcat(a[1..], b, haveSk);
      var x, y, z := [ReadStep(a[0], haveSk).value], ReadSteps(a[1..], haveSk).value, ReadSteps(b, haveSk).value;
      Reassociate(x, y, z);
    }
  }

  lemma Reassociate(x: seq<Index>, y: seq<Index>, z: seq<Index>)
    ensures x + (y + z) == x + y + z
  {
  }

  lemma {:induction false} DeriveSkConcat<SK, PK>(s: Scheme<SK, PK>, sk: SK, a: seq<Index>, b: seq<Index>)
    ensures DeriveSk(s, sk, a + b) == DeriveSk(s, DeriveSk(s, sk, a), b)
    decreases |a|
  {
    if a == [] {
      assert a + b == b;
    } else {
      assert (a + b)[1..] == a[1..] + b;
      DeriveSkConcat(s,
                     if a[0].hardened then s.hardened(sk, a[0].number) else s.unhardened(sk, a[0].number),
                     a[1..], b);
    }
  }

  lemma DropAfter(steps: seq<string>, tail: seq<string>)
    requires tail != []
    ensures DropEmptyLast(steps + tail) == steps + DropEmptyLast(tail)
  {
    var n := |tail| - 1;
    assert (steps + tail)[..|steps + tail| - 1] == steps + tail[..n];
    assert (steps + tail)[|steps + tail| - 1] == tail[n];
  }

  lemma StepsOfComposed(steps: seq<string>, rest: string)
    requires steps != [] && AllPlain(steps) && Steps("m/" + rest).Ok?
    ensures Steps(ShowPath(steps) + rest) == Ok(steps + Steps("m/" + rest).value)
  {
    hide Split, ShowPath, AllPlain, DropEmptyLast;
    StepsAppended(steps, rest);
    assert "m/" + rest == "m" + ['/'] + rest;
    SplitFirst("m", rest);
    var tail := Split(rest, '/');
    assert (["m"] + steps + tail)[1..] == steps + tail;
    assert (["m"] + tail)[1..] == tail;
    DropAfter(steps, tail);
  }

  /** Deriving along a path and then along another from its keys is deriving along both at once, with
      the second path appended to the text returned for the first. */
  lemma {:induction false} DerivationComposes<SK, PK>(s: Scheme<SK, PK>, pk: PK, root: string, sk: Option<SK>,
                                                      rest: string)
    requires Derivation(s, pk, root, sk).Ok? && Steps(root).value != []
    requires var d := Derivation(s, pk, root, sk).value; Derivation(s, d.pk, "m/" + rest, d.sk).Ok?
    ensures var d := Derivation(s, pk, root, sk).value;
            var e := Derivation(s, d.pk, "m/" + rest, d.sk).value;
            var both := Derivation(s, pk, d.path + rest, sk);
            both.Ok? && both.value.pk == e.pk && both.value.sk == e.sk
  {
    var steps, more := Steps(root).value, Steps("m/" + rest).value;
    StepsPlain(root);
    StepsOfComposed(steps, rest);
    ReadStepsConcat(steps, more, sk.Some?);
    var a, b := ReadSteps(steps, sk.Some?).value, ReadSteps(more, sk.Some?).value;
    if sk.Some? {
      DeriveSkConcat(s, sk.value, a, b);
    } else {
      DerivePkConcat(s, pk, a, b);
    }
  }

  lemma {:induction false} DerivePkConcat<SK, PK>(s: Scheme<SK, PK>, pk: PK, a: seq<Index>, b: seq<Index>)
    ensures DerivePk(s, pk, a + b) == DerivePk(s, DerivePk(s, pk, a), b)
    decreases |a|
  {
    if a == [] {
      assert a + b == b;
    } else {
      assert (a + b)[1..] == a[1..] + b;
      DerivePkConcat(s, s.unhardenedPk(pk, a[0].number), a[1..], b);
    }
  }

  // ------------------------------------------------------------ one more step

  lemma OneStep(text: string)
    requires text != [] && Plain(text)
    ensures Steps("m/" + text) == Ok([text])
  {
    assert "m/" + text == "m" + ['/'] + text;
    SplitFirst("m", text);
    SplitPlain(text);
    assert (["m"] + [text])[1..] == [text];
  }

  lemma ReadOneStep(text: string, haveSk: bool)
    requires ReadStep(text, haveSk).Ok?
    ensures ReadSteps([text], haveSk) == Ok([ReadStep(text, haveSk).value])
  {
    hide ReadStep;
    assert [text][1..] == [];
    assert ReadSteps([], haveSk) == Ok([]);
    var index := ReadStep(text, haveSk).value;
    assert [index] + [] == [index];
  }

  /** The text of a step: a number, with `n` after it if it is hardened. */
  ghost function StepOf(digits: string, hardened: bool): string {
    if hardened then digits + "n" else digits
  }

  /** The text is that of the number n, as `ShowNat(n)` is by `ReadShow`. */
  ghost predicate Names(digits: string, n: int) {
    Plain(digits) && ReadInt(digits) == Some(n)
  }

  lemma NumberEnd(s: string)
    requires ReadInt(s).Some?
    ensures s != [] && s[|s| - 1] != 'n'
  {
    var a, sign, digits, b := ReadsSigned(s);
    hide ReadInt, SignedValue;
    if b == [] {
      assert s[|s| - 1] == digits[|digits| - 1];
    } else {
      assert s[|s| - 1] == b[|b| - 1];
    }
  }

  lemma AppendN(digits: string)
    ensures var text := digits + "n"; text[|text| - 1] == 'n' && text[..|text| - 1] == digits
    ensures Plain(digits) ==> Plain(digits + "n")
  {
  }

  lemma StepReads(digits: string, n: int, hardened: bool, haveSk: bool)
    requires Names(digits, n)
    ensures StepOf(digits, hardened) != [] && Plain(StepOf(digits, hardened))
    ensures ReadStep(StepOf(digits, hardened), haveSk) ==
            if hardened && !haveSk then Err(HardenedWithoutKey) else Ok(Index(n, hardened))
  {
    hide ReadInt, Plain;
    NumberEnd(digits);
    AppendN(digits);
    var text := StepOf(digits, hardened);
    if hardened {
      assert text == digits + "n";
    } else {
      assert text == digits;
    }
  }

  /** The child of a pair of keys at an index, told from the key arithmetic alone. */
  ghost predicate IsChild<SK, PK>(s: Scheme<SK, PK>, pk: PK, sk: Option<SK>, n: int, hardened: bool,
                                  r: Derived<SK, PK>) {
    match sk
    case Some(secret) =>
      && r.sk == Some(if hardened then s.hardened(secret, n) else s.unhardened(secret, n))
      && r.pk == s.publicKey(r.sk.value)
    case None => !hardened && r.sk == None && r.pk == s.unhardenedPk(pk, n)
  }

  /** The root path derives the given keys; a path of one step derives their child. */
  lemma {:induction false} FirstStep<SK, PK>(s: Scheme<SK, PK>, pk: PK, sk: Option<SK>, digits: string, n: int,
                                             hardened: bool)
    requires Names(digits, n)
    ensures Derivation(s, pk, "m", sk) == Ok(Derived(if sk.Some? then s.publicKey(sk.value) else pk, sk, "m//"))
    ensures var text := "m/" + StepOf(digits, hardened);
            var r := Derivation(s, pk, text, sk);
            if hardened && sk.None? then r == Err(HardenedWithoutKey)
            else r.Ok? && IsChild(s, pk, sk, n, hardened, r.value) && r.value.path == text + "/"
  {
    var step := StepOf(digits, hardened);
    RootText();
    SplitPlain("m");
    assert Steps("m") == Ok([]);
    assert ReadSteps([], sk.Some?) == Ok([]);
    StepReads(digits, n, hardened, sk.Some?);
    OneStep(step);
    assert ShowPath([step]) == "m/" + step + "/";
    hide Steps, ReadStep, StepOf;
    if hardened && sk.None? {
      assert ReadSteps([step], false) == Err(HardenedWithoutKey);
    } else {
      ReadOneStep(step, sk.Some?);
      OneIndex(s, pk, sk, Index(n, hardened), "m/" + step + "/");
    }
  }

  lemma OneIndex<SK, PK>(s: Scheme<SK, PK>, pk: PK, sk: Option<SK>, index: Index, text: string)
    requires index.hardened ==> sk.Some?
    ensures IsChild(s, pk, sk, index.number, index.hardened, KeysAt(s, pk, sk, [index], text))
  {
    assert [index][1..] == [];
    if sk.Some? {
      var child := if index.hardened then s.hardened(sk.value, index.number) else s.unhardened(sk.value, index.number);
      assert DeriveSk(s, sk.value, [index]) == DeriveSk(s, child, []) == child;
    } else {
      assert DerivePk(s, pk, [index]) == DerivePk(s, s.unhardenedPk(pk, index.number), []);
    }
  }

  lemma DerivedPublicKey<SK, PK>(s: Scheme<SK, PK>, pk: PK, root: string, sk: Option<SK>)
    requires Derivation(s, pk, root, sk).Ok?
    ensures var d := Derivation(s, pk, root, sk).value;
            (d.sk.Some? <==> sk.Some?) && (d.sk.Some? ==> d.pk == s.publicKey(d.sk.value))
  {
  }

  lemma DerivedPath<SK, PK>(s: Scheme<SK, PK>, pk: PK, root: string, sk: Option<SK>)
    requires Derivation(s, pk, root, sk).Ok?
    ensures Steps(root).Ok? && Derivation(s, pk, root, sk).value.path == ShowPath(Steps(root).value)
  {
  }

  /** A step appended to the text of a path that has steps derives the child of that path's keys, hardened
      exactly if it is marked so. */
  lemma {:induction false} NextStep<SK, PK>(s: Scheme<SK, PK>, pk: PK, root: string, sk: Option<SK>, digits: string,
                                            n: int, hardened: bool)
    requires Names(digits, n)
    requires Derivation(s, pk, root, sk).Ok? && Steps(root).value != []
    ensures var d := Derivation(s, pk, root, sk).value;
            var text := d.path + StepOf(digits, hardened);
            var r := Derivation(s, pk, text, sk);
            if hardened && sk.None? then r == Err(HardenedWithoutKey)
            else r.Ok? && IsChild(s, d.pk, d.sk, n, hardened, r.value) && r.value.path == text + "/"
  {
    hide ReadStep, ReadInt, KeysAt, ShowPath, Join, Split, Steps, ReadSteps, Plain, AllPlain, StepOf;
    var d := Derivation(s, pk, root, sk).value;
    var steps, step := Steps(root).value, StepOf(digits, hardened);
    StepsPlain(root);
    DerivedPath(s, pk, root, sk);
    StepReads(digits, n, hardened, sk.Some?);
    OneStep(step);
    StepsOfComposed(steps, step);
    ShowOneMore(steps, step);
    if hardened && sk.None? {
      ReadRefused(steps, step);
    } else {
      DerivedPublicKey(s, pk, root, sk);
      FirstStep(s, d.pk, d.sk, digits, n, hardened);
      DerivationComposes(s, pk, root, sk, step);
      DerivedPath(s, pk, d.path + step, sk);
    }
  }

  lemma {:induction false} ShowOneMore(steps: seq<string>, step: string)
    requires steps != []
    ensures ShowPath(steps + [step]) == ShowPath(steps) + step + "/"
  {
    JoinOneMore(steps, step);
    var all := Join(steps, '/');
    assert "m/" + (all + ['/'] + step) + "/" == "m/" + all + "/" + step + "/";
  }

  lemma {:induction false} JoinOneMore(steps: seq<string>, step: string)
    requires steps != []
    ensures Join(steps + [step], '/') == Join(steps, '/') + ['/'] + step
    decreases |steps|
  {
    var all := steps + [step];
    assert all[1..] == steps[1..] + [step];
    if |steps| == 1 {
      assert all[1..] == [step];
    } else {
      JoinOneMore(steps[1..], step);
      var tail := Join(steps[1..], '/');
      assert steps[0] + ['/'] + (tail + ['/'] + step) == steps[0] + ['/'] + tail + ['/'] + step;
    }
  }

  lemma {:induction false} ReadRefused(steps: seq<string>, step: string)
    requires ReadSteps(steps, false).Ok? && ReadStep(step, false) == Err(HardenedWithoutKey)
    ensures ReadSteps(steps + [step], false) == Err(HardenedWithoutKey)
    decreases |steps|
  {
    hide ReadStep;
    if steps == [] {
      assert steps + [step] == [step];
    } else {
      assert (steps + [step])[1..] == steps[1..] + [step];
      ReadRefused(steps[1..], step);
    }
  }
}
