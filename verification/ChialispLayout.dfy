/** At which column a line is written, told from the text: which form the entries of the indent stack belong to,
    and where they come from. */
module ChialispLayout {
  import opened AsciiText
  import opened Bytes
  import opened Chialisp
  import opened ChialispFormat

  // ------------------------------------------------------------ reading a line

  /** The character is looked at as code: no string literal and no comment is open before it. A semicolon that
      starts a comment is the last such character of a line. */
  ghost predicate LiveAt(line: string, i: int) {
    0 <= i < |line| && i <= CommentAt(line) && AfterText(line[..i], CODE) == CODE
  }

  ghost predicate Opens(line: string, i: int) {
    LiveAt(line, i) && line[i] == '('
  }

  ghost predicate Closes(line: string, i: int) {
    LiveAt(line, i) && line[i] == ')'
  }

  /** Opening minus closing parentheses among the first i characters. */
  ghost function Net(line: string, i: nat): int {
    if i == 0 then 0 else Net(line, i - 1) + if Opens(line, i - 1) then 1 else if Closes(line, i - 1) then -1 else 0
  }

  /** The lowest level so far, at most that at the start. */
  ghost function Low(line: string, i: nat): int {
    if i == 0 then 0 else if Net(line, i) < Low(line, i - 1) then Net(line, i) else Low(line, i - 1)
  }

  /** The form opened at o is still open before i. */
  ghost predicate Encloses(line: string, o: nat, i: nat) {
    o < i && Opens(line, o) && forall j :: o < j <= i ==> Net(line, j) > Net(line, o)
  }

  // ------------------------------------------------------------ the rule for `if`

  /** The text read since the last opening parenthesis, if there was one: `before` on earlier lines. */
  ghost function Since(before: Option<string>, line: string, i: nat): Option<string>
    requires i <= |line|
  {
    if i == 0 then before
    else if Opens(line, i - 1) then Some("")
    else
      match Since(before, line, i - 1)
      case None => None
      case Some(w) => Some(w + [line[i - 1]])
  }

  /** The text starts with `if` and the end of a name. */
  predicate Named(w: string) {
    |w| >= 3 && w[0] == 'i' && w[1] == 'f' && (w[2] == ' ' || w[2] == '(' || w[2] == ')')
  }

  /** A character that can start an argument; string literals are passed over. */
  ghost predicate Starts(line: string, i: int) {
    LiveAt(line, i) && line[i] != ' ' && line[i] != ')' && line[i] != '\'' && line[i] != '"'
  }

  ghost predicate Candidate(before: Option<string>, line: string, i: nat)
    requires i < |line|
  {
    Starts(line, i) && Since(before, line, i).Some? && Named(Since(before, line, i).value + [line[i]])
  }

  /** An argument of the last form opened has been met, so its rule is used up. */
  ghost predicate Spent(before: Option<string>, spent: bool, line: string, i: nat)
    requires i <= |line|
  {
    if i == 0 then spent
    else if Opens(line, i - 1) then false
    else Spent(before, spent, line, i - 1) || Candidate(before, line, i - 1)
  }

  /** The rule for `if` applies: this is the first argument after the name. */
  ghost predicate Applies(before: Option<string>, spent: bool, line: string, i: nat)
    requires i < |line|
  {
    Candidate(before, line, i) && !Spent(before, spent, line, i)
  }

  // ------------------------------------------------------------ the formatter's variables on the way

  /** The number of characters that count for the layout: all code, and the semicolon after it. */
  function Stop(line: string): (n: nat)
    ensures n <= |line|
  {
    if CommentAt(line) < |line| then CommentAt(line) + 1 else |line|
  }

  /** The loop variables after i characters. */
  ghost function At(c: Carry, line: string, i: nat): Cursor
    requires i <= |line|
  {
    if i == 0 then StartLine(c) else StepChar(c.parenLevel, Track(At(c, line, i - 1), line[i - 1]), i - 1, line[i - 1])
  }

  ghost function StackAt(c: Carry, line: string, i: nat): seq<int>
    requires i <= |line|
  {
    At(c, line, i).carry.indentStack
  }

  ghost function ColumnAt(c: Carry, line: string, i: nat): int
    requires i <= |line|
  {
    At(c, line, i).lineIndent
  }

  // ------------------------------------------------------------ quotes

  lemma QuoteNext(line: string, i: nat)
    requires i < |line|
    ensures AfterText(line[..i + 1], CODE) == AfterChar(AfterText(line[..i], CODE), line[i])
  {
    assert line[..i + 1] == line[..i] + [line[i]];
    FreeConcat(line[..i], [line[i]], CODE);
    assert [line[i]][1..] == [];
    assert AfterText([line[i]], AfterText(line[..i], CODE)) ==
           AfterText([], AfterChar(AfterText(line[..i], CODE), line[i]));
  }

  lemma FreeBefore(line: string, i: nat)
    requires i < |line| && i <= CommentAt(line)
    ensures AfterText(line[..i], CODE) == CODE && line[i] == ';' <==> i == CommentAt(line)
  {
    var k := CommentAt(line);
    SkippedIsFree(line, 0, CODE);
    assert line[0..k] == line[..k];
    if i < k {
      assert line[..k] == line[..i] + line[i..k];
      FreeConcat(line[..i], line[i..k], CODE);
      assert line[i..k][0] == line[i];
    }
  }

  /** Up to the comment, the loop variables for quotes and semicolons are those of the text. */
  lemma {:induction false} AtQuote(c: Carry, line: string, i: nat)
    requires i <= CommentAt(line)
    ensures At(c, line, i).semis == 0 && At(c, line, i).quote == AfterText(line[..i], CODE)
  {
    if i > 0 {
      AtQuote(c, line, i - 1);
      QuoteNext(line, i - 1);
      FreeBefore(line, i - 1);
      var k := Track(At(c, line, i - 1), line[i - 1]);
      assert k.semis == 0 && k.quote == AfterText(line[..i - 1], CODE);
      PlainKeepsCode(k.quote, line[i - 1]);
    }
  }

  lemma PlainKeepsCode(q: Quote, ch: char)
    ensures q == CODE && ch != '\'' && ch != '"' ==> AfterChar(q, ch) == CODE
  {
  }

  // ------------------------------------------------------------ the name being read

  predicate Delimits(ch: char) {
    ch == ' ' || ch == '(' || ch == ')'
  }

  ghost predicate Blank(w: string) {
    forall i :: 0 <= i < |w| ==> w[i] == ' '
  }

  /** A name has begun and ended. */
  ghost predicate Ended(w: string) {
    w != [] && (Ended(w[..|w| - 1]) || (Delimits(w[|w| - 1]) && !Blank(w[..|w| - 1])))
  }

  /** The form tracking of the formatter stands where the text says. */
  ghost predicate Reads(c: Carry, since: Option<string>, spent: bool) {
    && (spent ==> since.Some? && Named(since.value))
    && match since
       case None => c.gettingFormName == 0 && c.formName == []
       case Some(w) =>
         if Ended(w) then
           c.gettingFormName == 0 && (c.formName == "if" <==> Named(w)) && (Named(w) ==> c.resetFormIndent == spent)
         else c.formName == w && c.gettingFormName == if Blank(w) then 1 else 2
  }

  lemma EndedNext(w: string, ch: char)
    ensures Ended(w + [ch]) <==> Ended(w) || (Delimits(ch) && !Blank(w))
  {
    assert (w + [ch])[..|w|] == w;
  }

  lemma {:induction false} EndedLong(w: string)
    ensures Ended(w) ==> |w| >= 2 && (|w| == 2 ==> Delimits(w[1]))
    ensures Named(w) ==> Ended(w)
    decreases |w|
  {
    if w != [] {
      EndedLong(w[..|w| - 1]);
      if Named(w) && |w| == 3 {
        assert w[..2][0] == 'i';
      }
    }
  }

  lemma NamedNext(w: string, ch: char)
    ensures Ended(w) ==> (Named(w + [ch]) <==> Named(w))
    ensures !Ended(w) ==> (Named(w + [ch]) <==> w == "if" && Delimits(ch))
  {
    EndedLong(w);
    assert |w| >= 3 ==> (Named(w + [ch]) <==> Named(w));
  }

  lemma TrackReads(c: Carry, since: Option<string>, spent: bool, ch: char)
    requires Reads(c, since, spent)
    ensures Reads(TrackForm(c, ch), if since.Some? then Some(since.value + [ch]) else None, spent)
    ensures ShouldReset(TrackForm(c, ch), ch) <==>
            ch != ' ' && !spent && since.Some? && Named(since.value + [ch])
    ensures TrackForm(c, ch).indentStack == c.indentStack && TrackForm(c, ch).parenLevel == c.parenLevel
  {
    if since.Some? {
      var w := since.value;
      EndedNext(w, ch);
      EndedLong(w);
      NamedNext(w, ch);
      BlankNext(w, ch);
    }
  }

  lemma BlankNext(w: string, ch: char)
    ensures Blank(w + [ch]) <==> Blank(w) && ch == ' '
  {
    assert (w + [ch])[|w|] == ch;
    if Blank(w + [ch]) {
      assert forall i :: 0 <= i < |w| ==> (w + [ch])[i] == w[i];
    }
  }

  // ------------------------------------------------------------ one character

  ghost function AfterRule(before: Option<string>, spent: bool, c: Carry, line: string, i: nat): seq<int>
    requires i < |line|
  {
    if Applies(before, spent, line, i) then ResetTop(StackAt(c, line, i), ColumnAt(c, line, i) + i)
    else StackAt(c, line, i)
  }

  /** The branches of the loop body. */
  lemma StepVars(startLevel: int, k: Cursor, i: nat, ch: char)
    requires k.semis == 0
    ensures var k' := StepChar(startLevel, k, i, ch);
            var reset := Reset(k.carry, ch, k.lineIndent + i);
            if k.quote != CODE || ch == '\'' || ch == '"' then k'.carry == k.carry && k'.lineIndent == k.lineIndent
            else if ch == '(' then k'.carry == Opened(reset) && k'.lineIndent == k.lineIndent
            else if ch == ')' then
              && k'.carry == Closed(k.carry)
              && k'.lineIndent == k.lineIndent - (if k.carry.parenLevel <= startLevel
                                                  then IndentDiff(k.carry.indentStack) else 0)
            else k'.carry == reset && k'.lineIndent == k.lineIndent
  {
  }

  lemma OpenedReads(c: Carry)
    ensures Reads(Opened(c), Some(""), false)
  {
  }

  /** Using up the rule. */
  lemma ResetReads(c: Carry, since: Option<string>, spent: bool, ch: char, col: int)
    requires Reads(c, since, spent)
    requires ShouldReset(c, ch) ==> since.Some? && Named(since.value) && !spent
    ensures Reads(Reset(c, ch, col), since, spent || ShouldReset(c, ch))
  {
    if since.Some? {
      EndedLong(since.value);
    }
  }

  lemma NamesNext(c: Carry, before: Option<string>, spent: bool, line: string, i: nat)
    requires i < Stop(line)
    requires Reads(At(c, line, i).carry, Since(before, line, i), Spent(before, spent, line, i))
    ensures Reads(At(c, line, i + 1).carry, Since(before, line, i + 1), Spent(before, spent, line, i + 1))
    ensures Starts(line, i) ==>
              (ShouldReset(TrackForm(At(c, line, i).carry, line[i]), line[i]) <==> Applies(before, spent, line, i))
  {
    var k, ch := At(c, line, i), line[i];
    var since, was := Since(before, line, i), Spent(before, spent, line, i);
    var next := if since.Some? then Some(since.value + [ch]) else None;
    AtQuote(c, line, i);
    TrackReads(k.carry, since, was, ch);
    OneStep(c, line, i);
    var t := Track(k, ch);
    StepVars(c.parenLevel, t, i, ch);
    hide StepChar, TrackForm, Reads, Ended, Named, AfterText, CommentAt, At, ShouldReset;
    assert LiveAt(line, i) <==> k.quote == CODE;
    if Opens(line, i) {
      OpenedReads(Reset(t.carry, ch, t.lineIndent + i));
    } else if Closes(line, i) {
      ClosedReads(t.carry, next, was);
    } else if Starts(line, i) {
      ResetReads(t.carry, next, was, ch, t.lineIndent + i);
    } else if k.quote == CODE && ch == ' ' {
      NoReset(t.carry, t.lineIndent + i);
    }
  }

  lemma ClosedReads(c: Carry, since: Option<string>, spent: bool)
    requires Reads(c, since, spent)
    ensures Reads(Closed(c), since, spent)
  {
  }

  lemma NoReset(c: Carry, col: int)
    ensures Reset(c, ' ', col) == c
  {
  }

  lemma NetNext(line: string, i: nat)
    ensures Net(line, i + 1) == Net(line, i) + if Opens(line, i) then 1 else if Closes(line, i) then -1 else 0
    ensures Low(line, i + 1) == if Net(line, i + 1) < Low(line, i) then Net(line, i + 1) else Low(line, i)
  {
  }

  /** A stack after one character, given what the rule for `if` made of it. */
  ghost function Moved(line: string, i: nat, stack: seq<int>): seq<int> {
    if Opens(line, i) then stack + [Top(stack) + 2]
    else if Closes(line, i) && stack != [] then stack[..|stack| - 1]
    else stack
  }

  /** What the carried variables become. */
  ghost predicate Becomes(c: Carry, line: string, i: nat, k: Cursor, stack: seq<int>, k': Cursor) {
    && k'.carry.parenLevel == k.carry.parenLevel + Net(line, i + 1) - Net(line, i)
    && k'.carry.indentStack == Moved(line, i, stack)
    && k'.lineIndent == (if Closes(line, i) && k.carry.parenLevel <= c.parenLevel
                         then k.lineIndent - IndentDiff(k.carry.indentStack) else k.lineIndent)
  }

  lemma CodeBecomes(c: Carry, line: string, i: nat, t: Cursor, applies: bool)
    requires LiveAt(line, i) && t.semis == 0 && t.quote == CODE
    requires applies ==> Starts(line, i)
    requires Starts(line, i) ==> (ShouldReset(t.carry, line[i]) <==> applies)
    ensures var stack := if applies then ResetTop(t.carry.indentStack, t.lineIndent + i) else t.carry.indentStack;
            Becomes(c, line, i, t, stack, StepChar(c.parenLevel, t, i, line[i]))
  {
    var ch := line[i];
    NetNext(line, i);
    StepVars(c.parenLevel, t, i, ch);
    hide StepChar, CommentAt, AfterText, Net, IndentDiff;
    if ch == ' ' {
      NoReset(t.carry, t.lineIndent + i);
    }
  }

  lemma TextBecomes(c: Carry, line: string, i: nat, t: Cursor)
    requires i < |line| && !LiveAt(line, i) && t.semis == 0 && t.quote != CODE
    ensures Becomes(c, line, i, t, t.carry.indentStack, StepChar(c.parenLevel, t, i, line[i]))
  {
    NetNext(line, i);
    StepVars(c.parenLevel, t, i, line[i]);
  }

  /** What one character does to the stack and the column, in terms of the text. */
  lemma StepAt(c: Carry, before: Option<string>, spent: bool, line: string, i: nat)
    requires i < Stop(line)
    requires Reads(At(c, line, i).carry, Since(before, line, i), Spent(before, spent, line, i))
    ensures Becomes(c, line, i, At(c, line, i), AfterRule(before, spent, c, line, i), At(c, line, i + 1))
  {
    hide LiveAt, Becomes, StepChar, Track, Reads, At, ShouldReset, Candidate, Spent, Since, Net, Applies, Opens, Closes;
    var k, ch := At(c, line, i), line[i];
    AtLive(c, line, i);
    NamesNext(c, before, spent, line, i);
    OneStep(c, line, i);
    NotStarting(before, spent, line, i);
    NotLive(line, i);
    Tracked(k, ch);
    var t, stack := Track(k, ch), AfterRule(before, spent, c, line, i);
    if k.quote == CODE {
      CodeBecomes(c, line, i, t, Applies(before, spent, line, i));
    } else {
      TextBecomes(c, line, i, t);
    }
    Retrack(c, line, i, k, t, stack, At(c, line, i + 1));
  }

  lemma AtLive(c: Carry, line: string, i: nat)
    requires i < Stop(line)
    ensures At(c, line, i).semis == 0 && (LiveAt(line, i) <==> At(c, line, i).quote == CODE)
  {
    AtQuote(c, line, i);
  }

  lemma Tracked(k: Cursor, ch: char)
    ensures var t := Track(k, ch);
            && t.semis == k.semis && t.quote == k.quote && t.lineIndent == k.lineIndent
            && t.carry == TrackForm(k.carry, ch)
            && t.carry.indentStack == k.carry.indentStack && t.carry.parenLevel == k.carry.parenLevel
  {
  }

  lemma Retrack(c: Carry, line: string, i: nat, k: Cursor, t: Cursor, stack: seq<int>, k': Cursor)
    requires t.carry.indentStack == k.carry.indentStack && t.carry.parenLevel == k.carry.parenLevel
    requires t.lineIndent == k.lineIndent && Becomes(c, line, i, t, stack, k')
    ensures Becomes(c, line, i, k, stack, k')
  {
  }

  lemma NotLive(line: string, i: nat)
    ensures !LiveAt(line, i) ==> !Starts(line, i)
  {
  }

  lemma NotStarting(before: Option<string>, spent: bool, line: string, i: nat)
    requires i < |line|
    ensures Applies(before, spent, line, i) ==> Starts(line, i)
  {
  }

  lemma OneStep(c: Carry, line: string, i: nat)
    requires i < |line|
    ensures At(c, line, i + 1) == StepChar(c.parenLevel, Track(At(c, line, i), line[i]), i, line[i])
  {
  }

  // ------------------------------------------------------------ the stack

  /** A line with what was carried to it: the formatter's variables, the text read since the last opening
      parenthesis, and whether the rule of that form is used up. */
  datatype Setting = Setting(carry: Carry, before: Option<string>, spent: bool, line: string)

  ghost predicate Proper(x: Setting) {
    Reads(x.carry, x.before, x.spent)
  }

  ghost predicate Ruled(x: Setting, a: int) {
    0 <= a < |x.line| && Applies(x.before, x.spent, x.line, a)
  }

  ghost function Stack(x: Setting, i: nat): seq<int>
    requires i <= |x.line|
  {
    StackAt(x.carry, x.line, i)
  }

  ghost function Column(x: Setting, i: nat): int
    requires i <= |x.line|
  {
    ColumnAt(x.carry, x.line, i)
  }

  lemma {:induction false} NameLaw(x: Setting, i: nat)
    requires Proper(x) && i <= Stop(x.line)
    ensures Reads(At(x.carry, x.line, i).carry, Since(x.before, x.line, i), Spent(x.before, x.spent, x.line, i))
  {
    if i > 0 {
      NameLaw(x, i - 1);
      NamesNext(x.carry, x.before, x.spent, x.line, i - 1);
    }
  }

  lemma {:induction false} LevelLaw(x: Setting, i: nat)
    requires Proper(x) && i <= Stop(x.line)
    ensures At(x.carry, x.line, i).carry.parenLevel == x.carry.parenLevel + Net(x.line, i)
  {
    hide StepChar, Reads, Since, Spent, Applies, Proper;
    if i > 0 {
      LevelLaw(x, i - 1);
      NameLaw(x, i - 1);
      StepAt(x.carry, x.before, x.spent, x.line, i - 1);
    }
  }

  lemma ClosesNoRule(x: Setting, i: nat)
    requires Closes(x.line, i)
    ensures !Ruled(x, i)
  {
  }

  /** The last application of the rule directly inside the form opened at o. */
  ghost predicate OwnRule(x: Setting, o: nat, i: nat, a: nat) {
    && o < a < i && Ruled(x, a) && Net(x.line, a) == Net(x.line, o) + 1
    && forall b :: a < b < i && Net(x.line, b) == Net(x.line, o) + 1 ==> !Ruled(x, b)
  }

  ghost predicate NoOwnRule(x: Setting, o: nat, i: nat) {
    forall a :: o < a < i && Net(x.line, a) == Net(x.line, o) + 1 ==> !Ruled(x, a)
  }

  /** The entry of a form opened on this line: where its rule applied last, or two more than the entry below. */
  ghost predicate EntryRight(x: Setting, o: nat, i: nat)
    requires i <= |x.line|
  {
    var stack := Stack(x, i);
    var e := |stack| - (Net(x.line, i) - Net(x.line, o));
    && 0 <= e < |stack|
    && (forall a :: OwnRule(x, o, i, a) ==> stack[e] == Column(x, a) + a)
    && (NoOwnRule(x, o, i) ==> stack[e] == Top(stack[..e]) + 2)
  }

  /** The number of entries from earlier lines that are left. */
  ghost function Left(x: Setting, i: nat): nat {
    var n := |x.carry.indentStack| + Low(x.line, i);
    if n < 0 then 0 else n
  }

  /** Only forms of earlier lines are open before b, as many as before i. */
  ghost predicate Outside(line: string, b: nat, i: nat) {
    Net(line, b) == Low(line, b) == Low(line, i)
  }

  ghost predicate CarriedRule(x: Setting, i: nat, a: nat) {
    && a < i && Ruled(x, a) && Outside(x.line, a, i)
    && forall b :: a < b < i && Outside(x.line, b, i) ==> !Ruled(x, b)
  }

  ghost predicate NoCarriedRule(x: Setting, i: nat) {
    forall a :: 0 <= a < i && Outside(x.line, a, i) ==> !Ruled(x, a)
  }

  /** The entries from earlier lines are unchanged, except that the rule may have applied at the topmost. */
  ghost predicate CarriedRight(x: Setting, i: nat)
    requires i <= |x.line|
  {
    var stack, n := Stack(x, i), Left(x, i);
    && |stack| == n + Net(x.line, i) - Low(x.line, i)
    && n <= |x.carry.indentStack| && n <= |stack|
    && (forall e :: 0 <= e < n - 1 ==> stack[e] == x.carry.indentStack[e])
    && (n > 0 && NoCarriedRule(x, i) ==> stack[n - 1] == x.carry.indentStack[n - 1])
    && (n > 0 ==> forall a :: CarriedRule(x, i, a) ==> stack[n - 1] == Column(x, a) + a)
  }

  lemma {:induction false} LowBelow(line: string, i: nat, j: nat)
    requires j <= i
    ensures Low(line, i) <= Net(line, j) && Low(line, i) <= Low(line, j) <= 0
    decreases i
  {
    if j < i {
      LowBelow(line, i - 1, j);
    } else if i > 0 {
      LowBelow(line, i - 1, i - 1);
    }
  }

  /** The stack after one character. */
  lemma StackNext(x: Setting, i: nat)
    requires Proper(x) && i < Stop(x.line)
    ensures var stack := if Ruled(x, i) then ResetTop(Stack(x, i), Column(x, i) + i) else Stack(x, i);
            Stack(x, i + 1) == Moved(x.line, i, stack)
  {
    NameLaw(x, i);
    StepAt(x.carry, x.before, x.spent, x.line, i);
  }

  lemma ColumnNext(x: Setting, i: nat)
    requires Proper(x) && i < Stop(x.line)
    ensures Column(x, i + 1) ==
            if Closes(x.line, i) && Net(x.line, i) <= 0 then Column(x, i) - IndentDiff(Stack(x, i)) else Column(x, i)
  {
    NameLaw(x, i);
    LevelLaw(x, i);
    StepAt(x.carry, x.before, x.spent, x.line, i);
  }

  lemma DiffIsDrop(stack: seq<int>)
    ensures IndentDiff(stack) == Top(stack) - Top(if stack == [] then [] else stack[..|stack| - 1])
  {
  }

  /** The column moves only where a parenthesis is closed at or below the level at which the line started, and then
      as far as the innermost column moves. */
  lemma {:induction false} ColumnLaw(x: Setting, i: nat)
    requires Proper(x) && i < Stop(x.line)
    ensures Column(x, i) - Column(x, i + 1) ==
            if Closes(x.line, i) && Net(x.line, i) <= 0 then Top(Stack(x, i)) - Top(Stack(x, i + 1)) else 0
  {
    hide Proper, Stack, Column, Net, Stop, Closes, Opens, Ruled, IndentDiff, Top;
    ColumnNext(x, i);
    StackNext(x, i);
    OneOrOther(x.line, i);
    if Closes(x.line, i) {
      ClosesNoRule(x, i);
      DiffIsDrop(Stack(x, i));
    }
  }

  /** Which applications of the rule are the last, one character later. */
  lemma CarriedRuleNext(x: Setting, i: nat, j: nat)
    requires i < |x.line| && j == i + 1 && Low(x.line, j) == Low(x.line, i)
    ensures Ruled(x, i) && Net(x.line, i) == Low(x.line, i) ==>
              !NoCarriedRule(x, j) && forall a :: CarriedRule(x, j, a) <==> a == i
    ensures !(Ruled(x, i) && Net(x.line, i) == Low(x.line, i)) ==>
              && (NoCarriedRule(x, j) <==> NoCarriedRule(x, i))
              && forall a :: CarriedRule(x, j, a) <==> CarriedRule(x, i, a)
  {
    hide Ruled, Net, Low;
    assert Outside(x.line, i, j) <==> Net(x.line, i) == Low(x.line, i);
    assert forall b: nat :: Outside(x.line, b, j) <==> Outside(x.line, b, i);
  }

  /** Where a form of an earlier line is closed, no rule has applied at the one around it. */
  lemma NoneYet(x: Setting, i: nat, j: nat)
    requires i < |x.line| && j == i + 1 && Low(x.line, j) < Low(x.line, i)
    ensures NoCarriedRule(x, j) && forall a :: !CarriedRule(x, j, a)
  {
    forall a: nat | a < j
      ensures !Outside(x.line, a, j)
    {
      LowBelow(x.line, i, a);
    }
  }

  lemma CarriedNext(x: Setting, i: nat)
    requires Proper(x) && i < Stop(x.line) && CarriedRight(x, i)
    ensures CarriedRight(x, i + 1)
  {
    hide Proper, Ruled, NoCarriedRule, CarriedRule, Net, Low, Stack, Column, Stop, Opens, Closes;
    StackNext(x, i);
    NetNext(x.line, i);
    LowBelow(x.line, i, i);
    OneOrOther(x.line, i);
    var stack := if Ruled(x, i) then ResetTop(Stack(x, i), Column(x, i) + i) else Stack(x, i);
    if Closes(x.line, i) && Net(x.line, i) == Low(x.line, i) {
      NoneYet(x, i, i + 1);
      assert forall e :: 0 <= e < Left(x, i) - 1 ==> stack[e] == Stack(x, i)[e];
    } else {
      CarriedRuleNext(x, i, i + 1);
      if Closes(x.line, i) {
        ClosesNoRule(x, i);
      }
    }
  }

  lemma OneOrOther(line: string, i: nat)
    ensures !(Opens(line, i) && Closes(line, i))
  {
  }

  lemma OwnRuleNext(x: Setting, o: nat, i: nat, j: nat)
    requires o < i < |x.line| && j == i + 1
    ensures Ruled(x, i) && Net(x.line, i) == Net(x.line, o) + 1 ==>
              !NoOwnRule(x, o, j) && forall a :: OwnRule(x, o, j, a) <==> a == i
    ensures !(Ruled(x, i) && Net(x.line, i) == Net(x.line, o) + 1) ==>
              && (NoOwnRule(x, o, j) <==> NoOwnRule(x, o, i))
              && forall a :: OwnRule(x, o, j, a) <==> OwnRule(x, o, i, a)
  {
    hide Ruled, Net;
  }

  lemma EntryNext(x: Setting, o: nat, i: nat)
    requires Proper(x) && i < Stop(x.line) && Encloses(x.line, o, i + 1)
    requires o < i ==> EntryRight(x, o, i)
    ensures EntryRight(x, o, i + 1)
  {
    hide Proper, Ruled, NoOwnRule, OwnRule, Net, Stack, Column, Stop, Opens, Closes;
    StackNext(x, i);
    NetNext(x.line, i);
    OneOrOther(x.line, i);
    if o == i {
      NothingInside(x, i, i + 1);
    } else {
      assert Net(x.line, i) > Net(x.line, o) && Net(x.line, i + 1) > Net(x.line, o);
      OwnRuleNext(x, o, i, i + 1);
      EntryMoves(x, o, i);
    }
  }

  lemma NothingInside(x: Setting, i: nat, j: nat)
    requires j == i + 1
    ensures NoOwnRule(x, i, j) && forall a :: !OwnRule(x, i, j, a)
  {
  }

  /** An entry keeps its place and the entry below while its form is open, and its value unless it is the topmost. */
  lemma EntryMoves(x: Setting, o: nat, i: nat)
    requires Proper(x) && o < i < Stop(x.line)
    requires Net(x.line, i) > Net(x.line, o) && Net(x.line, i + 1) > Net(x.line, o)
    ensures var stack, next := Stack(x, i), Stack(x, i + 1);
            var e := |stack| - (Net(x.line, i) - Net(x.line, o));
            0 <= e ==>
              && e == |next| - (Net(x.line, i + 1) - Net(x.line, o)) && e < |next|
              && next[..e] == stack[..e]
              && next[e] == if Ruled(x, i) && Net(x.line, i) == Net(x.line, o) + 1 then Column(x, i) + i else stack[e]
  {
    hide Proper, Ruled, Net, Stack, Column, Stop, Opens, Closes;
    StackNext(x, i);
    NetNext(x.line, i);
    OneOrOther(x.line, i);
    if Closes(x.line, i) {
      ClosesNoRule(x, i);
    }
  }

  /** The whole stack at every point of a line. */
  lemma {:induction false} StackLaw(x: Setting, i: nat)
    requires Proper(x) && i <= Stop(x.line)
    ensures CarriedRight(x, i) && forall o :: Encloses(x.line, o, i) ==> EntryRight(x, o, i)
  {
    hide Proper, CarriedRight, EntryRight, Stop, Encloses;
    if i == 0 {
      StackStart(x);
    } else {
      StackLaw(x, i - 1);
      CarriedNext(x, i - 1);
      forall o: nat | Encloses(x.line, o, i)
        ensures EntryRight(x, o, i)
      {
        EnclosesEarlier(x.line, o, i - 1);
        EntryNext(x, o, i - 1);
      }
    }
  }

  lemma StackStart(x: Setting)
    ensures CarriedRight(x, 0) && forall o :: !Encloses(x.line, o, 0)
  {
    assert Stack(x, 0) == x.carry.indentStack;
  }

  lemma EnclosesEarlier(line: string, o: nat, i: nat)
    requires Encloses(line, o, i + 1)
    ensures o < i ==> Encloses(line, o, i)
  {
    hide Net;
  }

  // ------------------------------------------------------------ from line to line

  /** How far the loop looks: through the semicolons and at one more character. */
  function AfterSemis(line: string, i: nat): (n: nat)
    requires i <= |line|
    ensures i <= n <= |line|
    decreases |line| - i
  {
    if i == |line| then i else if line[i] == ';' then AfterSemis(line, i + 1) else i + 1
  }

  function Looked(line: string): (n: nat)
    ensures Stop(line) <= n <= |line|
  {
    if CommentAt(line) < |line| then AfterSemis(line, Stop(line)) else |line|
  }

  /** The next line and what is carried to it. */
  ghost function Next(x: Setting, line: string): Setting {
    Setting(NextCarry(x.carry, x.line), Since(x.before, x.line, Looked(x.line)),
            Spent(x.before, x.spent, x.line, Looked(x.line)), line)
  }

  lemma {:induction false} RunFromAt(c: Carry, line: string, i: nat)
    requires i <= Stop(line)
    ensures RunLine(c.parenLevel, At(c, line, i), line, i) == EndLine(c, line)
  {
    if i > 0 {
      RunFromAt(c, line, i - 1);
      AtLive(c, line, i - 1);
      OneStep(c, line, i - 1);
    }
  }

  lemma DeadBeyond(line: string, i: nat)
    requires CommentAt(line) < i
    ensures !LiveAt(line, i)
  {
  }

  /** In a comment only the name being read can change. */
  lemma {:induction false} TailLaw(startLevel: int, k: Cursor, before: Option<string>, spent: bool, line: string,
                                   i: nat)
    requires CommentAt(line) < i <= |line| && k.semis > 0
    requires Reads(k.carry, Since(before, line, i), Spent(before, spent, line, i))
    ensures var e := RunLine(startLevel, k, line, i);
            && e.carry.indentStack == k.carry.indentStack && e.carry.parenLevel == k.carry.parenLevel
            && e.lineIndent == k.lineIndent
            && Reads(e.carry, Since(before, line, AfterSemis(line, i)), Spent(before, spent, line, AfterSemis(line, i)))
    decreases |line| - i
  {
    hide Reads, LiveAt, TrackForm, CommentAt;
    if i < |line| {
      DeadBeyond(line, i);
      TrackReads(k.carry, Since(before, line, i), Spent(before, spent, line, i), line[i]);
      var t := Track(k, line[i]);
      assert Since(before, line, i + 1) ==
             if Since(before, line, i).Some? then Some(Since(before, line, i).value + [line[i]]) else None;
      assert Spent(before, spent, line, i + 1) == Spent(before, spent, line, i);
      if line[i] == ';' {
        TailLaw(startLevel, StepChar(startLevel, t, i, line[i]), before, spent, line, i + 1);
      }
    }
  }

  lemma EndOfCode(x: Setting)
    requires Proper(x) && CommentAt(x.line) == |x.line|
    ensures Stop(x.line) == Looked(x.line) == |x.line|
    ensures EndLine(x.carry, x.line) == At(x.carry, x.line, Stop(x.line))
  {
    RunFromAt(x.carry, x.line, |x.line|);
  }

  lemma EndOfComment(x: Setting)
    requires Proper(x) && CommentAt(x.line) < |x.line|
    ensures var e, k := EndLine(x.carry, x.line), At(x.carry, x.line, Stop(x.line));
            && e.carry.indentStack == k.carry.indentStack && e.carry.parenLevel == k.carry.parenLevel
            && e.lineIndent == k.lineIndent
            && Reads(e.carry, Since(x.before, x.line, Looked(x.line)), Spent(x.before, x.spent, x.line, Looked(x.line)))
  {
    hide RunLine, EndLine, At, Since, Spent, Reads, Proper;
    var n := Stop(x.line);
    NameLaw(x, n);
    RunFromAt(x.carry, x.line, n);
    SemicolonStops(x.carry, x.line);
    TailLaw(x.carry.parenLevel, At(x.carry, x.line, n), x.before, x.spent, x.line, n);
  }

  lemma ReadsOn(c: Carry, since: Option<string>, spent: bool, stack: seq<int>)
    requires Reads(c, since, spent)
    ensures Reads(c.(indentStack := stack), since, spent)
  {
  }

  /** The variables at the end of a line are those after its code, and the next line is read on properly. */
  lemma EndLaw(x: Setting, line: string)
    requires Proper(x)
    ensures EndLine(x.carry, x.line).carry.indentStack == Stack(x, Stop(x.line))
    ensures EndLine(x.carry, x.line).lineIndent == Column(x, Stop(x.line))
    ensures EndLine(x.carry, x.line).carry.parenLevel == x.carry.parenLevel + Net(x.line, Stop(x.line))
    ensures Proper(Next(x, line))
  {
    hide EndLine, At, Since, Spent, Net, Reads, Stop, Looked, CommentAt, Clamp;
    var n := Stop(x.line);
    LevelLaw(x, n);
    NameLaw(x, n);
    if CommentAt(x.line) == |x.line| {
      EndOfCode(x);
    } else {
      EndOfComment(x);
    }
    var e := EndLine(x.carry, x.line);
    ReadsOn(e.carry, Since(x.before, x.line, Looked(x.line)), Spent(x.before, x.spent, x.line, Looked(x.line)),
            Clamp(e.carry.indentStack, |x.carry.indentStack|));
  }

  lemma SemicolonStops(c: Carry, line: string)
    requires CommentAt(line) < |line|
    ensures At(c, line, Stop(line)).semis > 0
  {
    var k := CommentAt(line);
    AtLive(c, line, k);
    FreeBefore(line, k);
    OneStep(c, line, k);
  }

  /** Of the forms left open on a line, all but the first are carried with the entry of the second. */
  lemma ClampLaw(x: Setting, line: string)
    requires Proper(x)
    ensures var stack, next := Stack(x, Stop(x.line)), Next(x, line).carry.indentStack;
            var n := |x.carry.indentStack| + 1;
            |next| == |stack| && forall e :: 0 <= e < |stack| ==> next[e] == stack[if e < n then e else n]
  {
    EndLaw(x, line);
  }

  // ------------------------------------------------------------ a whole file

  ghost function SettingAt(lines: seq<string>, k: nat): Setting
    requires k < |lines|
  {
    if k == 0 then Setting(START, None, false, lines[0]) else Next(SettingAt(lines, k - 1), lines[k])
  }

  lemma {:induction false} SettingProper(lines: seq<string>, k: nat)
    requires k < |lines|
    ensures Proper(SettingAt(lines, k)) && SettingAt(lines, k).line == lines[k]
  {
    if k > 0 {
      SettingProper(lines, k - 1);
      EndLaw(SettingAt(lines, k - 1), lines[k]);
    }
  }

  lemma {:induction false} LinesFrom(c: Carry, lines: seq<string>, j: nat, k: nat)
    requires j <= k < |lines| && c == SettingAt(lines, j).carry
    ensures FormatLines(c, lines[j..])[k - j] ==
            LineText(EndLine(SettingAt(lines, k).carry, lines[k]).lineIndent, lines[k])
    decreases k - j
  {
    hide LineText, EndLine, Looked, Since, Spent;
    var rest := lines[j..];
    assert rest[0] == lines[j] && rest[1..] == lines[j + 1..];
    SettingProper(lines, j);
    if j < k {
      LinesFrom(NextCarry(c, lines[j]), lines, j + 1, k);
    }
  }

  /** Line k of the output is line k of the input at the column of its setting. */
  ghost predicate LaidOut(x: Setting, lines: seq<string>, out: seq<string>, k: nat)
    requires k < |lines|
  {
    && Proper(x) && x.line == lines[k]
    && k < |out| && out[k] == LineText(Column(x, Stop(x.line)), x.line)
  }

  /** Every line of a formatted file stands at the column of its setting, which the text of the file determines by
      `StackLaw`, `ColumnLaw` and `ClampLaw`. */
  lemma {:induction false} FileLayout(text: string, k: nat)
    requires AllAscii(text) && k < |Source(text)|
    ensures LaidOut(SettingAt(Source(text), k), Source(text), SplitLines(Format(text).value, []), k)
  {
    var lines := Source(text);
    var out := FormatLines(START, lines);
    SourceProper(text);
    FormattedClean(START, lines);
    SplitJoin(out);
    SettingProper(lines, k);
    EndLaw(SettingAt(lines, k), "");
    assert lines[0..] == lines;
    LinesFrom(START, lines, 0, k);
  }

  // ------------------------------------------------------------ the column of a line

  /** A parenthesis that can move the line: it closes a form of an earlier line, or one opened after such a form
      was closed. */
  ghost predicate Lowers(line: string, i: nat) {
    Closes(line, i) && Net(line, i) <= 0
  }

  lemma {:induction false} StaysPut(x: Setting, j: nat, n: nat)
    requires Proper(x) && j <= n <= Stop(x.line)
    requires forall i :: j <= i < n ==> !Lowers(x.line, i)
    ensures Column(x, n) == Column(x, j)
    decreases n
  {
    hide Proper, Column, Stop;
    if j < n {
      StaysPut(x, j, n - 1);
      ColumnLaw(x, n - 1);
      assert !Lowers(x.line, n - 1);
    }
  }

  /** A line that closes no form of an earlier line is written at the innermost entry. */
  lemma ClosesNothing(x: Setting)
    requires Proper(x) && forall i :: 0 <= i < Stop(x.line) ==> !Lowers(x.line, i)
    ensures Column(x, Stop(x.line)) == Top(x.carry.indentStack)
  {
    StaysPut(x, 0, Stop(x.line));
  }

  lemma {:induction false} OnlyCloses(x: Setting, j: nat)
    requires Proper(x) && j <= Stop(x.line)
    requires forall i :: 0 <= i < j ==> !Opens(x.line, i) && !Ruled(x, i)
    ensures Net(x.line, j) == Low(x.line, j) <= 0
    ensures Column(x, j) == Top(Stack(x, j))
    decreases j
  {
    if j > 0 {
      OnlyCloses(x, j - 1);
      assert !Opens(x.line, j - 1) && !Ruled(x, j - 1);
      hide Proper, Ruled, Stack, Column, Opens, Closes, Stop;
      NetNext(x.line, j - 1);
      ColumnLaw(x, j - 1);
      StackNext(x, j - 1);
    }
  }

  /** A line that first closes forms of earlier lines, and after that none, is written at the entry that is then
      the innermost. */
  lemma ClosesFirst(x: Setting, j: nat)
    requires Proper(x) && j <= Stop(x.line)
    requires forall i :: 0 <= i < j ==> !Opens(x.line, i) && !Ruled(x, i)
    requires forall i :: j <= i < Stop(x.line) ==> !Lowers(x.line, i)
    ensures Left(x, j) <= |x.carry.indentStack|
    ensures Column(x, Stop(x.line)) == Top(x.carry.indentStack[..Left(x, j)])
  {
    OnlyCloses(x, j);
    StaysPut(x, j, Stop(x.line));
    StackLaw(x, j);
    hide Proper, Ruled, Stack, Column, Opens, Net, Low;
    assert NoCarriedRule(x, j);
    assert Stack(x, j) == x.carry.indentStack[..Left(x, j)];
  }

  // ------------------------------------------------------------ the rule for `if` on the page

  /** The form opened at o is named `if`, and a is where its first argument starts, string literals apart. */
  ghost predicate FirstArgument(line: string, o: nat, a: nat) {
    && Opens(line, o) && o + 3 <= a < |line| && line[o + 1] == 'i' && line[o + 2] == 'f'
    && (line[o + 3] == ' ' || line[o + 3] == '(')
    && Starts(line, a) && (forall b :: o + 3 <= b < a ==> !Starts(line, b))
    && Encloses(line, o, a)
  }

  lemma {:induction false} NameOnLine(x: Setting, o: nat, a: nat, i: nat)
    requires FirstArgument(x.line, o, a) && o < i <= a
    ensures Since(x.before, x.line, i) == Some(x.line[o + 1..i])
    ensures !Spent(x.before, x.spent, x.line, i)
    ensures Net(x.line, i) == Net(x.line, o) + 1
    decreases i
  {
    if i == o + 1 {
      assert x.line[o + 1..i] == "";
    } else {
      NameOnLine(x, o, a, i - 1);
      var w := x.line[o + 1..i - 1];
      assert w + [x.line[i - 1]] == x.line[o + 1..i];
      assert !Opens(x.line, i - 1) by {
        if i - 1 >= o + 3 {
          assert !Starts(x.line, i - 1);
        } else {
          assert i - 1 == o + 1 || i - 1 == o + 2;
        }
      }
      assert !Candidate(x.before, x.line, i - 1) by {
        if i - 1 < o + 3 {
          assert |w + [x.line[i - 1]]| < 3;
        }
      }
      assert Net(x.line, i) > Net(x.line, o);
    }
  }

  /** There the rule applies, whether the argument is a parenthesis or not. */
  lemma RuleApplies(x: Setting, o: nat, a: nat)
    requires FirstArgument(x.line, o, a)
    ensures Ruled(x, a) && Net(x.line, a) == Net(x.line, o) + 1
  {
    NameOnLine(x, o, a, a);
    assert x.line[o + 1..a] + [x.line[a]] == x.line[o + 1..a + 1];
  }

  /** No other argument directly inside the form takes over its entry: one that follows a form `(if)`. */
  ghost predicate OnlyRule(x: Setting, o: nat, a: nat) {
    forall b :: a < b < Stop(x.line) && Net(x.line, b) == Net(x.line, o) + 1 ==> !Ruled(x, b)
  }

  /** The place in the stack of a form that is open at the end of its line. */
  ghost function EntryOf(x: Setting, o: nat): int {
    |Stack(x, Stop(x.line))| - (Net(x.line, Stop(x.line)) - Net(x.line, o))
  }

  ghost predicate StandsAt(out: string, i: int, ch: char) {
    0 <= i < |out| && out[i] == ch
  }

  /** An `if` form that is open at the end of its line, with its first argument on that line. */
  ghost predicate OpenIf(x: Setting, o: nat, a: nat) {
    FirstArgument(x.line, o, a) && Encloses(x.line, o, Stop(x.line))
  }

  /** Nothing from here on moves the line. */
  ghost predicate Settled(line: string, a: nat) {
    forall i :: a <= i < Stop(line) ==> !Lowers(line, i)
  }

  /** That is so inside a form, unless two forms of earlier lines were closed before it. */
  lemma SettledInside(line: string, o: nat, a: nat)
    requires Encloses(line, o, Stop(line)) && o < a && Net(line, o) >= -1
    ensures Settled(line, a)
  {
    hide Net;
    forall i | a <= i < Stop(line)
      ensures !Lowers(line, i)
    {
      NetNext(line, i);
      OneOrOther(line, i);
      assert Net(line, i + 1) > Net(line, o);
    }
  }

  /** The entry of such a form is the index of its first argument in the line as it is written, exactly if no later
      argument takes it over. */
  lemma IfEntry(x: Setting, o: nat, a: nat)
    requires Proper(x) && OpenIf(x, o, a) && Settled(x.line, a)
    ensures var e, stack, column := EntryOf(x, o), Stack(x, Stop(x.line)), Column(x, Stop(x.line));
            && 0 <= e < |stack|
            && (stack[e] == column + a <==> OnlyRule(x, o, a))
            && (OnlyRule(x, o, a) && 0 <= column && a < |Code(x.line)| ==>
                  StandsAt(LineText(column, x.line), stack[e], x.line[a]))
  {
    hide Proper, Stack, Column, Net, Stop, OnlyRule, FirstArgument, Encloses, Settled, LineText, Code;
    IfStack(x, o, a);
    ArgumentOnLine(x.line, o, a);
    if 0 <= Column(x, Stop(x.line)) && a < |Code(x.line)| {
      CodeOnPage(x.line, Column(x, Stop(x.line)), a);
    }
  }

  lemma ArgumentOnLine(line: string, o: nat, a: nat)
    requires FirstArgument(line, o, a)
    ensures a < |line|
  {
  }

  /** The last application of the rule directly inside a form, if there is one. */
  lemma {:induction false} LastRule(x: Setting, o: nat, a: nat, i: nat) returns (b: nat)
    requires o < a < i && Ruled(x, a) && Net(x.line, a) == Net(x.line, o) + 1
    ensures a <= b < i && OwnRule(x, o, i, b)
    decreases i
  {
    hide Ruled, Net;
    if Ruled(x, i - 1) && Net(x.line, i - 1) == Net(x.line, o) + 1 {
      b := i - 1;
    } else {
      b := LastRule(x, o, a, i - 1);
    }
  }

  /** The next line finds an entry as it is, unless two other forms of the line are open around it; then it finds
      the entry of the second of these. */
  lemma EntryCarried(x: Setting, o: nat, line: string)
    requires Proper(x) && Encloses(x.line, o, Stop(x.line))
    ensures var e, stack, next := EntryOf(x, o), Stack(x, Stop(x.line)), Next(x, line).carry.indentStack;
            var second := |x.carry.indentStack| + 1;
            0 <= e < |stack| == |next| && next[e] == stack[if e < second then e else second]
  {
    hide Proper, Stack, Column, Net, Stop, Encloses, Next;
    StackLaw(x, Stop(x.line));
    assert EntryRight(x, o, Stop(x.line));
    ClampLaw(x, line);
  }

  lemma IfStack(x: Setting, o: nat, a: nat)
    requires Proper(x) && OpenIf(x, o, a) && Settled(x.line, a)
    ensures var e, stack := EntryOf(x, o), Stack(x, Stop(x.line));
            && 0 <= e < |stack|
            && (stack[e] == Column(x, Stop(x.line)) + a <==> OnlyRule(x, o, a))
  {
    hide Proper, Stack, Column, Net, Ruled, Encloses, Lowers, FirstArgument;
    var n := Stop(x.line);
    RuleApplies(x, o, a);
    InsideLine(x.line, o, a, n);
    var b := LastRule(x, o, a, n);
    StaysPut(x, b, n);
    StackLaw(x, n);
    assert EntryRight(x, o, n);
    assert a < b ==> Ruled(x, b) && Net(x.line, b) == Net(x.line, o) + 1;
  }

  lemma InsideLine(line: string, o: nat, a: nat, n: nat)
    requires FirstArgument(line, o, a) && n == Stop(line)
    ensures o < a < n
  {
  }

  lemma CodeOnPage(line: string, column: int, a: nat)
    requires 0 <= column && a < |Code(line)|
    ensures var out := LineText(column, line); column + a < |out| && out[column + a] == line[a]
  {
    hide TrimEnd, CommentAt;
    var code := Code(line);
    assert code[a] == line[a];
    assert Normal(line)[a] == code[a];
  }

  /** Every other form left open has two more than the entry below it. */
  lemma OtherEntry(x: Setting, o: nat)
    requires Proper(x) && Encloses(x.line, o, Stop(x.line)) && NoOwnRule(x, o, Stop(x.line))
    ensures var e, stack := EntryOf(x, o), Stack(x, Stop(x.line));
            0 <= e < |stack| && stack[e] == Top(stack[..e]) + 2
  {
    StackLaw(x, Stop(x.line));
    assert EntryRight(x, o, Stop(x.line));
  }

  lemma FirstHalf(line: string)
    requires line == "(if(if)b"
    ensures RunLine(0, StartLine(START), line, 0) ==
            RunLine(0, Cursor(Carry(2, 1, [], true, [3, 5]), 0, CODE, 0, 0), line, 4)
  {
    var k0 := StartLine(START);
    var k1 := StepChar(0, Track(k0, '('), 0, '(');
    var k2 := StepChar(0, Track(k1, 'i'), 1, 'i');
    var k3 := StepChar(0, Track(k2, 'f'), 2, 'f');
    assert k3 == Cursor(Carry(1, 2, "if", false, [2]), 0, CODE, 0, 0);
    var k4 := StepChar(0, Track(k3, '('), 3, '(');
    assert RunLine(0, k0, line, 0) == RunLine(0, k1, line, 1) == RunLine(0, k2, line, 2) == RunLine(0, k3, line, 3);
    assert RunLine(0, k3, line, 3) == RunLine(0, k4, line, 4);
    assert k4 == Cursor(Carry(2, 1, [], true, [3, 5]), 0, CODE, 0, 0);
  }

  lemma SecondHalf(line: string)
    requires line == "(if(if)b"
    ensures RunLine(0, Cursor(Carry(2, 1, [], true, [3, 5]), 0, CODE, 0, 0), line, 4).carry.indentStack == [7]
  {
    var k4 := Cursor(Carry(2, 1, [], true, [3, 5]), 0, CODE, 0, 0);
    var k5 := StepChar(0, Track(k4, 'i'), 4, 'i');
    var k6 := StepChar(0, Track(k5, 'f'), 5, 'f');
    assert k6 == Cursor(Carry(2, 2, "if", false, [3, 5]), 0, CODE, 0, 0);
    var k7 := StepChar(0, Track(k6, ')'), 6, ')');
    assert k7 == Cursor(Carry(1, 0, "if", false, [3]), 0, CODE, 0, 0);
    var k8 := StepChar(0, Track(k7, 'b'), 7, 'b');
    assert RunLine(0, k4, line, 4) == RunLine(0, k5, line, 5) == RunLine(0, k6, line, 6) == RunLine(0, k7, line, 7);
    assert RunLine(0, k7, line, 7) == RunLine(0, k8, line, 8) == k8;
  }

  /** Without the condition on later arguments the entry can be another: after a form `(if)` the next argument
      around it sets the column, here 7 instead of 3. */
  lemma LaterArgumentRules(line: string)
    requires line == "(if(if)b"
    ensures NextCarry(START, line).indentStack == [7]
  {
    hide RunLine, StartLine;
    FirstHalf(line);
    SecondHalf(line);
  }
}
