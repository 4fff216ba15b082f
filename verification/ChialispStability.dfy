/** Exactly when one pass of the formatter is enough. */
module ChialispStability {
  import opened AsciiText
  import opened Chialisp
  import opened ChialispFormat

  // ------------------------------------------------------------ states that behave alike

  /** The rule for `if` cannot apply before the next opening parenthesis: no name that may still become `if`
      is being read, and no `if` waits for its first argument. */
  predicate Dead(c: Carry) {
    if c.gettingFormName <= 0 then !(c.gettingFormName == 0 && c.formName == "if" && !c.resetFormIndent)
    else c.formName != "" && c.formName != "i" && c.formName != "if"
  }

  /** The same form, or none that matters in either. */
  predicate Alike(c: Carry, d: Carry) {
    && c.parenLevel == d.parenLevel
    && ((Dead(c) && Dead(d)) ||
        (c.gettingFormName == d.gettingFormName && c.formName == d.formName &&
         (c.gettingFormName <= 0 ==> c.resetFormIndent == d.resetFormIndent)))
  }

  predicate Same(c: Carry, d: Carry) {
    Alike(c, d) && c.indentStack == d.indentStack
  }

  lemma LongerName(f: string, ch: char)
    requires f != "" && f != "i" && f != "if"
    ensures f + [ch] != "" && f + [ch] != "i" && f + [ch] != "if"
  {
    var g := f + [ch];
    assert g[..|f|] == f && |g| == |f| + 1;
  }

  lemma TrackDead(c: Carry, ch: char)
    requires Dead(c)
    ensures Dead(TrackForm(c, ch))
  {
    if c.gettingFormName > 0 {
      LongerName(c.formName, ch);
    }
  }

  lemma TrackAlike(c: Carry, d: Carry, ch: char)
    requires Alike(c, d)
    ensures Alike(TrackForm(c, ch), TrackForm(d, ch))
  {
    if Dead(c) && Dead(d) {
      TrackDead(c, ch);
      TrackDead(d, ch);
    }
  }

  /** Two cursors at the same place in the same kind of text. */
  predicate Abreast(k: Cursor, m: Cursor) {
    Alike(k.carry, m.carry) && k.quote == m.quote && k.semis == m.semis && k.semiOff == m.semiOff
  }

  predicate SameCursor(k: Cursor, m: Cursor) {
    Abreast(k, m) && k.carry.indentStack == m.carry.indentStack && k.lineIndent == m.lineIndent
  }

  lemma StepAbreast(startLevel: int, k: Cursor, m: Cursor, i: nat, ch: char)
    requires Abreast(k, m)
    ensures Abreast(StepChar(startLevel, k, i, ch), StepChar(startLevel, m, i, ch))
    ensures ShouldReset(k.carry, ch) == ShouldReset(m.carry, ch)
  {
  }

  lemma StepSame(startLevel: int, k: Cursor, m: Cursor, i: nat, ch: char)
    requires SameCursor(k, m)
    ensures SameCursor(StepChar(startLevel, k, i, ch), StepChar(startLevel, m, i, ch))
  {
    hide Alike;
    StepAbreast(startLevel, k, m, i, ch);
    SameLevel(k.carry, m.carry);
  }

  lemma SameLevel(c: Carry, d: Carry)
    requires Alike(c, d)
    ensures c.parenLevel == d.parenLevel
  {
  }

  lemma TrackSame(k: Cursor, m: Cursor, ch: char)
    requires SameCursor(k, m)
    ensures SameCursor(Track(k, ch), Track(m, ch)) && Track(k, ch).semis == k.semis
  {
    hide Alike;
    TrackAlike(k.carry, m.carry, ch);
  }

  lemma {:induction false} RunSame(startLevel: int, k: Cursor, m: Cursor, line: string, i: nat)
    requires i <= |line| && SameCursor(k, m)
    ensures SameCursor(RunLine(startLevel, k, line, i), RunLine(startLevel, m, line, i))
    decreases |line| - i
  {
    hide Alike, Track, StepChar;
    if i < |line| {
      var ch := line[i];
      TrackSame(k, m, ch);
      var k1, m1 := Track(k, ch), Track(m, ch);
      if !(k.semis > 0 && ch != ';') {
        StepSame(startLevel, k1, m1, i, ch);
        RunSame(startLevel, StepChar(startLevel, k1, i, ch), StepChar(startLevel, m1, i, ch), line, i + 1);
      }
    }
  }

  // ------------------------------------------------------------ one entry of the stack off by some columns

  /** Whether the code closes a parenthesis that it did not open, `depth` being those it has open. */
  predicate ClosesFrom(code: string, i: nat, q: Quote, depth: nat)
    requires i <= |code|
    decreases |code| - i
  {
    i < |code| &&
    if q == CODE && code[i] == '(' then ClosesFrom(code, i + 1, q, depth + 1)
    else if q == CODE && code[i] == ')' then depth == 0 || ClosesFrom(code, i + 1, q, depth - 1)
    else ClosesFrom(code, i + 1, AfterChar(q, code[i]), depth)
  }

  predicate Closes(line: string) {
    ClosesFrom(Code(line), 0, CODE, 0)
  }

  ghost predicate Shifted(s: seq<int>, t: seq<int>, n: nat, delta: int) {
    |s| == |t| && forall j :: 0 <= j < |s| ==> t[j] == s[j] + if j + 1 >= n then delta else 0
  }

  /** Entry n - 1, open since the start of the line, and all above it are off by delta, and so is the line. */
  ghost predicate Adrift(startLevel: int, k: Cursor, m: Cursor, n: nat, delta: int) {
    && Abreast(k, m) && k.semis == 0
    && 1 <= n <= |k.carry.indentStack| && Shifted(k.carry.indentStack, m.carry.indentStack, n, delta)
    && k.carry.parenLevel == startLevel + |k.carry.indentStack| - n
    && m.lineIndent == k.lineIndent + delta
  }

  lemma TrackAdrift(startLevel: int, k: Cursor, m: Cursor, n: nat, delta: int, ch: char)
    requires Adrift(startLevel, k, m, n, delta)
    ensures Adrift(startLevel, Track(k, ch), Track(m, ch), n, delta)
    ensures Track(k, ch).carry.indentStack == k.carry.indentStack && Track(k, ch).lineIndent == k.lineIndent
    ensures Track(k, ch).quote == k.quote
  {
    TrackAlike(k.carry, m.carry, ch);
  }

  /** A character of code either closes the entry, and both runs agree again, or keeps them apart. */
  lemma StepAdrift(startLevel: int, k: Cursor, m: Cursor, n: nat, delta: int, i: nat, ch: char)
    requires Adrift(startLevel, k, m, n, delta) && !StartsComment(k.quote, ch)
    ensures var k', m' := StepChar(startLevel, k, i, ch), StepChar(startLevel, m, i, ch);
            if k.quote == CODE && ch == ')' && |k.carry.indentStack| == n then SameCursor(k', m') && k'.semis == 0
            else Adrift(startLevel, k', m', n, delta) && k'.lineIndent == k.lineIndent
  {
    StepAbreast(startLevel, k, m, i, ch);
    var s, t := k.carry.indentStack, m.carry.indentStack;
    var k', m' := StepChar(startLevel, k, i, ch), StepChar(startLevel, m, i, ch);
    if k.quote == CODE && ch == ')' && |s| == n {
      assert s[..n - 1] == t[..n - 1];
    }
  }

  lemma {:induction false} RunAdrift(startLevel: int, k: Cursor, m: Cursor, n: nat, delta: int, code: string, i: nat)
    requires i <= |code| && Adrift(startLevel, k, m, n, delta) && CommentFree(code[i..], k.quote)
    ensures var k', m' := RunLine(startLevel, k, code, i), RunLine(startLevel, m, code, i);
            if ClosesFrom(code, i, k.quote, |k.carry.indentStack| - n) then SameCursor(k', m')
            else Adrift(startLevel, k', m', n, delta) && k'.lineIndent == k.lineIndent
    decreases |code| - i
  {
    hide Alike, Shifted, Track;
    if i < |code| {
      var ch := code[i];
      assert code[i..][0] == ch && code[i..][1..] == code[i + 1..];
      TrackAdrift(startLevel, k, m, n, delta, ch);
      var k1, m1 := Track(k, ch), Track(m, ch);
      StepAdrift(startLevel, k1, m1, n, delta, i, ch);
      var k2, m2 := StepChar(startLevel, k1, i, ch), StepChar(startLevel, m1, i, ch);
      StepDepth(startLevel, k1, i, ch);
      if k.quote == CODE && ch == ')' && |k.carry.indentStack| == n {
        RunSame(startLevel, k2, m2, code, i + 1);
      } else {
        RunAdrift(startLevel, k2, m2, n, delta, code, i + 1);
      }
    }
  }

  /** What a character does to quotes and depth. */
  lemma StepDepth(startLevel: int, k: Cursor, i: nat, ch: char)
    requires k.semis == 0 && !StartsComment(k.quote, ch)
    ensures var k', size := StepChar(startLevel, k, i, ch), |k.carry.indentStack|;
            && k'.quote == AfterChar(k.quote, ch)
            && |k'.carry.indentStack| ==
               if k.quote == CODE && ch == '(' then size + 1
               else if k.quote == CODE && ch == ')' && size > 0 then size - 1
               else size
  {
  }

  // ------------------------------------------------------------ the white space and the comment of a line

  /** The rule for `if` waits for the next character that is no space, or will once a space ends the name. */
  predicate Armed(c: Carry) {
    c.formName == "if" && (c.gettingFormName == 2 || (c.gettingFormName == 0 && !c.resetFormIndent))
  }

  /** How many spaces follow. */
  function Blanks(line: string, i: nat): (n: nat)
    requires i <= |line|
    decreases |line| - i
  {
    if i < |line| && line[i] == ' ' then 1 + Blanks(line, i + 1) else 0
  }

  /** Where the rule for `if`, armed at the end of the code, puts the innermost indentation: at the first
      character that is no space; a name that is not ended by a space goes on and is no `if` any more. */
  function LandsAt(k: Cursor, line: string, i: nat): int
    requires i <= |line|
  {
    if k.carry.gettingFormName == 2 && Blanks(line, i) == 0 then Top(k.carry.indentStack)
    else k.lineIndent + i + Blanks(line, i)
  }

  /** From i on there is white space up to a comment. */
  ghost predicate OnlyComment(line: string, i: nat)
    requires i <= |line|
  {
    CommentFrom(line, i, CODE) < |line| && forall j :: i <= j < CommentFrom(line, i, CODE) ==> IsSpace(line[j])
  }

  ghost predicate Keeps(before: Cursor, after: Cursor, stack: seq<int>) {
    && Dead(after.carry) && after.carry.indentStack == stack
    && after.carry.parenLevel == before.carry.parenLevel && after.lineIndent == before.lineIndent
  }

  lemma {:induction false} DeadTail(startLevel: int, k: Cursor, line: string, i: nat)
    requires i <= |line| && Dead(k.carry) && k.quote == CODE && (k.semis == 0 ==> OnlyComment(line, i))
    ensures Keeps(k, RunLine(startLevel, k, line, i), k.carry.indentStack)
    decreases |line| - i
  {
    if i < |line| {
      TrackDead(k.carry, line[i]);
      if !(k.semis > 0 && line[i] != ';') {
        DeadTail(startLevel, StepChar(startLevel, Track(k, line[i]), i, line[i]), line, i + 1);
      }
    }
  }

  lemma {:induction false} WaitingTail(startLevel: int, k: Cursor, line: string, i: nat)
    requires i <= |line| && k.quote == CODE && k.semis == 0 && OnlyComment(line, i)
    requires Armed(k.carry) && k.carry.gettingFormName == 0
    ensures Keeps(k, RunLine(startLevel, k, line, i), ResetTop(k.carry.indentStack, k.lineIndent + i + Blanks(line, i)))
    decreases |line| - i
  {
    var k' := StepChar(startLevel, Track(k, line[i]), i, line[i]);
    if line[i] == ' ' {
      assert k' == k;
      WaitingTail(startLevel, k, line, i + 1);
    } else {
      DeadTail(startLevel, k', line, i + 1);
    }
  }

  /** White space and a comment settle the form, and change the stack only if the rule for `if` is armed. */
  lemma TailRun(startLevel: int, k: Cursor, line: string, i: nat)
    requires i <= |line| && k.quote == CODE && k.semis == 0 && OnlyComment(line, i)
    ensures Keeps(k, RunLine(startLevel, k, line, i),
                  if Armed(k.carry) then ResetTop(k.carry.indentStack, LandsAt(k, line, i)) else k.carry.indentStack)
  {
    if Dead(k.carry) {
      DeadTail(startLevel, k, line, i);
    } else if k.carry.gettingFormName <= 0 {
      WaitingTail(startLevel, k, line, i);
    } else {
      NameTail(startLevel, k, line, i);
    }
  }

  /** The case of a name that is still being read. */
  lemma NameTail(startLevel: int, k: Cursor, line: string, i: nat)
    requires i <= |line| && k.quote == CODE && k.semis == 0 && OnlyComment(line, i)
    requires k.carry.gettingFormName > 0 && !Dead(k.carry)
    ensures Keeps(k, RunLine(startLevel, k, line, i),
                  if Armed(k.carry) then ResetTop(k.carry.indentStack, LandsAt(k, line, i)) else k.carry.indentStack)
  {
    var ch := line[i];
    assert IsSpace(ch) || ch == ';';
    var k1 := Track(k, ch);
    var k2 := StepChar(startLevel, k1, i, ch);
    if k.carry.gettingFormName == 2 && ch == ' ' {
      assert k2 == k1;
      if k.carry.formName == "if" {
        WaitingTail(startLevel, k1, line, i + 1);
      } else {
        DeadTail(startLevel, k1, line, i + 1);
      }
    } else {
      assert k1.carry.formName == k.carry.formName + [ch];
      NoName(k.carry.formName, ch);
      DeadTail(startLevel, k2, line, i + 1);
      assert ResetTop(k.carry.indentStack, Top(k.carry.indentStack)) == k.carry.indentStack;
    }
  }

  lemma NoName(f: string, ch: char)
    requires f == "" || f == "i" || f == "if"
    requires IsSpace(ch) || ch == ';'
    ensures f + [ch] != "" && f + [ch] != "i" && f + [ch] != "if"
  {
    var g := f + [ch];
    assert g[|g| - 1] == ch;
  }

  // ------------------------------------------------------------ columns are never negative

  function Under(s: seq<int>, m: nat): int
    requires m <= |s|
  {
    if m == 0 then 0 else s[m - 1]
  }

  ghost predicate NonNegative(s: seq<int>) {
    forall j :: 0 <= j < |s| ==> s[j] >= 0
  }

  /** How many entries a closing parenthesis can take the line's own indentation back by. */
  function Lowering(startLevel: int, c: Carry): int {
    if c.parenLevel > startLevel then |c.indentStack| - (c.parenLevel - startLevel) else |c.indentStack|
  }

  /** At position i of the line the indentation is still at most i columns short of zero, and however many
      parentheses are closed from here on, each of them takes a character. */
  ghost predicate Bounded(startLevel: int, k: Cursor, i: nat) {
    var s, b := k.carry.indentStack, Lowering(startLevel, k.carry);
    && NonNegative(s) && 0 <= b <= |s|
    && forall m :: 0 <= m <= b ==> Under(s, b) - Under(s, m) <= k.lineIndent + i + (b - m)
  }

  lemma NotShort(startLevel: int, k: Cursor, i: nat)
    requires Bounded(startLevel, k, i)
    ensures 0 <= k.lineIndent + i
  {
    var s, b := k.carry.indentStack, Lowering(startLevel, k.carry);
    assert 0 <= Under(s, b);
  }

  lemma ResetBounded(startLevel: int, k: Cursor, i: nat, ch: char)
    requires Bounded(startLevel, k, i)
    ensures Bounded(startLevel, k.(carry := Reset(k.carry, ch, k.lineIndent + i)), i)
  {
    var s, b := k.carry.indentStack, Lowering(startLevel, k.carry);
    NotShort(startLevel, k, i);
    var k' := k.(carry := Reset(k.carry, ch, k.lineIndent + i));
    var t := k'.carry.indentStack;
    assert forall m :: 0 <= m <= |s| && m < |s| ==> Under(t, m) == Under(s, m);
  }

  lemma OpenBounded(startLevel: int, k: Cursor, i: nat)
    requires Bounded(startLevel, k, i)
    ensures Bounded(startLevel, k.(carry := Opened(k.carry)), i + 1)
  {
    var s, b := k.carry.indentStack, Lowering(startLevel, k.carry);
    assert Top(s) == Under(s, |s|);
    var t := Opened(k.carry).indentStack;
    assert forall m :: 0 <= m <= |s| ==> Under(t, m) == Under(s, m);
    NotShort(startLevel, k, i);
  }

  lemma CloseBounded(startLevel: int, k: Cursor, i: nat)
    requires Bounded(startLevel, k, i)
    ensures var lowered :=
              if k.carry.parenLevel <= startLevel then k.lineIndent - IndentDiff(k.carry.indentStack)
              else k.lineIndent;
            Bounded(startLevel, k.(carry := Closed(k.carry), lineIndent := lowered), i + 1)
  {
    var s := k.carry.indentStack;
    var t := Closed(k.carry).indentStack;
    assert forall m :: 0 <= m <= |t| ==> Under(t, m) == Under(s, m);
    assert s != [] ==> IndentDiff(s) == Under(s, |s|) - Under(s, |s| - 1);
  }

  lemma StepBounded(startLevel: int, k: Cursor, i: nat, ch: char)
    requires Bounded(startLevel, k, i)
    ensures Bounded(startLevel, StepChar(startLevel, k, i, ch), i + 1)
  {
    hide Opened, Closed, Reset, IndentDiff;
    ResetBounded(startLevel, k, i, ch);
    OpenBounded(startLevel, k.(carry := Reset(k.carry, ch, k.lineIndent + i)), i);
    CloseBounded(startLevel, k, i);
    BoundedLater(startLevel, k, i);
    BoundedLater(startLevel, k.(carry := Reset(k.carry, ch, k.lineIndent + i)), i);
  }

  lemma BoundedLater(startLevel: int, k: Cursor, i: nat)
    requires Bounded(startLevel, k, i)
    ensures Bounded(startLevel, k, i + 1)
  {
  }

  lemma {:induction false} RunBounded(startLevel: int, k: Cursor, line: string, i: nat)
    requires i <= |line| && Bounded(startLevel, k, i)
    ensures var k' := RunLine(startLevel, k, line, i);
            NonNegative(k'.carry.indentStack) && (k'.semis == 0 ==> Bounded(startLevel, k', |line|))
    decreases |line| - i
  {
    hide StepChar;
    if i < |line| {
      var k1 := Track(k, line[i]);
      assert Bounded(startLevel, k1, i);
      if !(k.semis > 0 && line[i] != ';') {
        StepBounded(startLevel, k1, i, line[i]);
        RunBounded(startLevel, StepChar(startLevel, k1, i, line[i]), line, i + 1);
      }
    }
  }

  lemma LineBounded(c: Carry, line: string)
    requires NonNegative(c.indentStack)
    ensures var k := EndLine(c, line);
            && NonNegative(k.carry.indentStack) && NonNegative(NextCarry(c, line).indentStack)
            && (k.semis == 0 ==> 0 <= k.lineIndent + |line|)
  {
    hide RunLine;
    RunBounded(c.parenLevel, StartLine(c), line, 0);
    var k := EndLine(c, line);
    if k.semis == 0 {
      NotShort(c.parenLevel, k, |line|);
    }
  }

  /** The run over a line passes through the run over its code. */
  lemma {:induction false} RunThroughCode(startLevel: int, k: Cursor, line: string, code: string, i: nat)
    requires code <= line && i <= |code| && k.semis == 0 && CommentFree(code[i..], k.quote)
    ensures var k' := RunLine(startLevel, k, code, i);
            && k'.semis == 0 && k'.quote == AfterText(code[i..], k.quote)
            && RunLine(startLevel, k, line, i) == RunLine(startLevel, k', line, |code|)
    decreases |code| - i
  {
    if i < |code| {
      var ch := code[i];
      var rest := code[i..];
      assert line[i] == ch && rest[0] == ch && rest[1..] == code[i + 1..];
      RunThroughCode(startLevel, StepChar(startLevel, Track(k, ch), i, ch), line, code, i + 1);
    }
  }

  lemma GapOfLine(line: string)
    requires Trimmed(line) && Comment(line) != []
    ensures Code(line) <= line && CommentFree(Code(line), CODE) && AfterText(Code(line), CODE) == CODE
    ensures CommentFrom(line, |Code(line)|, CODE) == CommentAt(line)
    ensures forall j :: |Code(line)| <= j < CommentAt(line) ==> IsSpace(line[j])
  {
    var code, k := Code(line), CommentAt(line);
    CodeEndsOutside(line);
    hide CommentFree, AfterText;
    assert code == line[..|code|] == line[0..0 + |code|];
    CommentPast(line, 0, code, CODE);
    assert forall j :: |code| <= j < k ==> line[j] == line[..k][|code|..][j - |code|];
  }

  // ------------------------------------------------------------ what moving a comment does to the state

  /** Moving the comment of this line changes the indentation that is carried on: at the end of the code the
      rule for `if` is armed and has an entry to set, it sets it to another column than two spaces after the
      code, and the entry is not overwritten at the end of the line. */
  ghost predicate Jolts(c: Carry, line: string) {
    var code := Code(line);
    var k := EndLine(c, code);
    && code != [] && Comment(line) != [] && Armed(k.carry)
    && 1 <= |k.carry.indentStack| <= |c.indentStack| + 2
    && LandsAt(k, line, |code|) != k.lineIndent + |code| + 2
  }

  /** The states agree but for the innermost indentation. */
  ghost predicate Drifted(c: Carry, d: Carry) {
    var s, t := c.indentStack, d.indentStack;
    && Alike(c, d) && 1 <= |s| == |t| && s[..|s| - 1] == t[..|t| - 1]
    && 0 <= Top(s) && 0 <= Top(t) && Top(s) != Top(t)
  }

  lemma ClampTop(s: seq<int>, v: int, startLen: nat)
    requires s != []
    ensures |s| <= startLen + 2 ==> Clamp(s, startLen) == s
    ensures |s| > startLen + 2 ==> Clamp(ResetTop(s, v), startLen) == Clamp(s, startLen)
  {
    if |s| > startLen + 2 {
      var t := ResetTop(s, v);
      assert t[..startLen + 1] == s[..startLen + 1] && t[startLen + 1] == s[startLen + 1];
    }
  }

  lemma SetTops(c: Carry, d: Carry, s: seq<int>, a: int, b: int, startLen: nat)
    requires Alike(c, d) && c.indentStack == Clamp(ResetTop(s, a), startLen)
             && d.indentStack == Clamp(ResetTop(s, b), startLen)
    requires 0 <= a && 0 <= b
    ensures if a != b && 1 <= |s| <= startLen + 2 then Drifted(c, d) else Same(c, d)
  {
    if s != [] {
      var x, y := ResetTop(s, a), ResetTop(s, b);
      ClampTop(s, a, startLen);
      ClampTop(s, b, startLen);
      ClampTop(x, a, startLen);
      ClampTop(y, b, startLen);
      assert x[..|x| - 1] == s[..|s| - 1] == y[..|y| - 1];
    }
  }

  /** The normal form of a line with code and comment has two spaces between them. */
  lemma NormalBlanks(line: string)
    requires Trimmed(line) && Code(line) != [] && Comment(line) != []
    ensures var n := |Code(line)|; n <= |Normal(line)| && Blanks(Normal(line), n) == 2
  {
    hide Code, Trimmed;
    LineParts(line);
    var n, t := |Code(line)|, Normal(line);
    assert t[n] == ' ' && t[n + 1] == ' ' && t[n + 2] == ';';
    assert Blanks(t, n + 2) == 0;
    assert Blanks(t, n + 1) == 1;
  }

  /** The run over a line with code and a comment, from the run over its code. */
  lemma CommentRun(c: Carry, line: string)
    requires Trimmed(line) && Comment(line) != []
    ensures var k := EndLine(c, Code(line));
            && k.semis == 0
            && Keeps(k, EndLine(c, line),
                     if Armed(k.carry) then ResetTop(k.carry.indentStack, LandsAt(k, line, |Code(line)|))
                     else k.carry.indentStack)
  {
    hide RunLine, CommentFree, AfterText, Code, CommentAt, Trimmed, CommentFrom, Keeps, Armed, LandsAt;
    var code := Code(line);
    GapOfLine(line);
    assert code[0..] == code;
    RunThroughCode(c.parenLevel, StartLine(c), line, code, 0);
    TailRun(c.parenLevel, EndLine(c, code), line, |code|);
  }

  /** Two runs that agree at the end of the code of a line, one over the line and one over its normal form:
      the line is written at the same column, and the states agree after it iff the comment does not jolt. */
  lemma LineFollows(c: Carry, d: Carry, line: string)
    requires Trimmed(line) && Code(line) != [] && NonNegative(c.indentStack) && |c.indentStack| == |d.indentStack|
    requires SameCursor(EndLine(c, Code(line)), EndLine(d, Code(line)))
    ensures EndLine(c, line).lineIndent == EndLine(d, Normal(line)).lineIndent == EndLine(c, Code(line)).lineIndent
    ensures var c', d' := NextCarry(c, line), NextCarry(d, Normal(line));
            if Jolts(c, line) then Drifted(c', d') else Same(c', d')
  {
    hide EndLine, Code, Trimmed, Normal, Clamp, CommentAt;
    var code, n := Code(line), |Code(line)|;
    var k, m := EndLine(c, code), EndLine(d, code);
    LineParts(line);
    NormalParts(line);
    if Comment(line) == [] {
      WholeIsCode(line);
    } else {
      CommentRun(c, line);
      CommentRun(d, Normal(line));
      NormalBlanks(line);
      LineBounded(c, code);
      var a, b := LandsAt(k, line, n), k.lineIndent + n + 2;
      assert LandsAt(m, Normal(line), n) == b;
      if Armed(k.carry) {
        assert 0 <= a && 0 <= b;
        SetTops(NextCarry(c, line), NextCarry(d, Normal(line)), k.carry.indentStack, a, b, |c.indentStack|);
      }
    }
  }

  lemma WholeIsCode(line: string)
    requires Trimmed(line) && CommentAt(line) == |line|
    ensures Code(line) == line == Normal(line)
  {
    LineParts(line);
    assert line == Code(line) + [] + [];
  }

  // ------------------------------------------------------------ exactly when one pass is enough

  /** The next line that is not blank, if there is one, closes the innermost parenthesis. */
  predicate ClosedNext(lines: seq<string>) {
    lines != [] ==> if lines[0] == [] then ClosedNext(lines[1..]) else Closes(lines[0])
  }

  /** Wherever a moved comment jolts the indentation, no line is written at that indentation. */
  ghost predicate Unseen(c: Carry, lines: seq<string>)
    decreases |lines|
  {
    lines != [] ==> (Jolts(c, lines[0]) ==> ClosedNext(lines[1..])) && Unseen(NextCarry(c, lines[0]), lines[1..])
  }

  lemma BlankKeeps(c: Carry)
    ensures NextCarry(c, "") == c && !Jolts(c, "") && Normal("") == ""
  {
  }

  /** A line with a comment and no code. */
  lemma CommentOnly(c: Carry, line: string)
    requires Trimmed(line) && Code(line) == [] && Comment(line) != []
    ensures Normal(line) == line && !Closes(line) && EndLine(c, line).lineIndent == Top(c.indentStack)
  {
    hide EndLine, Code, Trimmed;
    LineParts(line);
    assert [] + [] + Comment(line) == Comment(line);
    CommentRun(c, line);
    NothingRun(c);
  }

  lemma NothingRun(c: Carry)
    ensures EndLine(c, "") == StartLine(c)
  {
  }

  /** One line that is not blank, read in states that agree. */
  lemma SameLine(c: Carry, d: Carry, line: string)
    requires Trimmed(line) && line != [] && NonNegative(c.indentStack) && Same(c, d)
    ensures SameColumn(c, d, line)
    ensures var c', d' := NextCarry(c, line), NextCarry(d, Normal(line));
            if Jolts(c, line) then Drifted(c', d') else Same(c', d')
  {
    hide RunLine, Code, Trimmed, Normal;
    LineParts(line);
    if Code(line) == [] {
      CommentOnly(c, line);
      RunSame(c.parenLevel, StartLine(c), StartLine(d), line, 0);
    } else {
      RunSame(c.parenLevel, StartLine(c), StartLine(d), Code(line), 0);
      LineFollows(c, d, line);
    }
  }

  /** One line that is not blank, read in states that have drifted apart. */
  lemma DriftedLine(c: Carry, d: Carry, line: string)
    requires Trimmed(line) && line != [] && NonNegative(c.indentStack) && Drifted(c, d)
    ensures SameColumn(c, d, line) <==> Closes(line)
    ensures Closes(line) ==>
            var c', d' := NextCarry(c, line), NextCarry(d, Normal(line));
            if Jolts(c, line) then Drifted(c', d') else Same(c', d')
  {
    hide RunLine, Trimmed, Normal, Code, Alike, CommentFree, ClosesFrom;
    LineParts(line);
    NormalParts(line);
    if Code(line) == [] {
      CommentOnly(c, line);
      CommentOnly(d, line);
    } else {
      var s, t := c.indentStack, d.indentStack;
      DriftedCode(c, d, line);
      if Closes(line) {
        LineFollows(c, d, line);
      } else {
        CodeColumn(c, line);
        CodeColumn(d, Normal(line));
      }
    }
  }

  /** The column of a line is settled by its code. */
  lemma CodeColumn(c: Carry, line: string)
    requires Trimmed(line)
    ensures EndLine(c, line).lineIndent == EndLine(c, Code(line)).lineIndent
  {
    hide EndLine, Code, Trimmed;
    if Comment(line) == [] {
      WholeIsCode(line);
    } else {
      CommentRun(c, line);
    }
  }

  lemma DriftedCode(c: Carry, d: Carry, line: string)
    requires Drifted(c, d)
    ensures var k, m := EndLine(c, Code(line)), EndLine(d, Code(line));
            if Closes(line) then SameCursor(k, m)
            else k.lineIndent == Top(c.indentStack) && m.lineIndent == Top(d.indentStack)
  {
    hide RunLine, CommentFree, Code, ClosesFrom;
    var s, t, code := c.indentStack, d.indentStack, Code(line);
    var delta := Top(t) - Top(s);
    assert forall j :: 0 <= j < |s| - 1 ==> s[j] == s[..|s| - 1][j] && t[j] == t[..|t| - 1][j];
    CodeEndsOutside(line);
    assert code[0..] == code;
    RunAdrift(c.parenLevel, StartLine(c), StartLine(d), |s|, delta, code, 0);
  }

  /** Two readings of the same lines, one of them in comment normal form, write all lines at the same columns
      iff no jolt is seen, a drift they start with included. */
  lemma {:induction false} Follows(c: Carry, d: Carry, lines: seq<string>)
    requires AllTrimmed(lines) && NonNegative(c.indentStack) && (Same(c, d) || Drifted(c, d))
    ensures SameColumns(c, d, lines) <==> (Drifted(c, d) ==> ClosedNext(lines)) && Unseen(c, lines)
    decreases |lines|
  {
    hide EndLine, NextCarry, Trimmed, Normal, Jolts, Closes, SameColumn, Alike;
    if lines != [] {
      var l := lines[0];
      BlankKeeps(c);
      BlankKeeps(d);
      LineBounded(c, l);
      NotBlank(c, d, l);
      if l == [] {
        Follows(c, d, lines[1..]);
      } else if Same(c, d) {
        SameLine(c, d, l);
        Follows(NextCarry(c, l), NextCarry(d, Normal(l)), lines[1..]);
      } else {
        DriftedLine(c, d, l);
        if Closes(l) {
          Follows(NextCarry(c, l), NextCarry(d, Normal(l)), lines[1..]);
        }
      }
    }
  }

  lemma NotBlank(c: Carry, d: Carry, line: string)
    ensures line == [] ==> SameColumn(c, d, line)
    ensures Drifted(c, d) ==> !Same(c, d)
  {
  }

  /** A non-blank line is written at the same column in both states. */
  ghost predicate SameColumn(c: Carry, d: Carry, line: string) {
    Normal(line) == [] || |Spaces(EndLine(c, line).lineIndent)| == |Spaces(EndLine(d, Normal(line)).lineIndent)|
  }

  /** Following the lines in one state and their comment normal forms in another, all columns agree. */
  ghost predicate SameColumns(c: Carry, d: Carry, lines: seq<string>)
    decreases |lines|
  {
    lines != [] ==>
      && SameColumn(c, d, lines[0])
      && SameColumns(NextCarry(c, lines[0]), NextCarry(d, Normal(lines[0])), lines[1..])
  }

  lemma SameColumnText(c: Carry, d: Carry, line: string)
    requires Trimmed(line)
    ensures LineText(EndLine(c, line).lineIndent, line) ==
            LineText(EndLine(d, Normal(line)).lineIndent, Normal(line)) <==>
            SameColumn(c, d, line)
  {
    hide EndLine, Normal, Trimmed;
    NormalIdempotent(line);
    var a, b, n := Spaces(EndLine(c, line).lineIndent), Spaces(EndLine(d, Normal(line)).lineIndent), Normal(line);
    assert |a + n| == |a| + |n| && |b + n| == |b| + |n|;
    assert |a| == |b| ==> a == b;
  }

  lemma {:induction false} SameColumnsText(c: Carry, d: Carry, lines: seq<string>)
    requires AllTrimmed(lines)
    ensures FormatLines(c, lines) == FormatLines(d, NormalAll(lines)) <==> SameColumns(c, d, lines)
    decreases |lines|
  {
    hide NextCarry, EndLine, LineText, Normal, SameColumn, Trimmed;
    if lines != [] {
      var l := lines[0];
      SameColumnText(c, d, l);
      assert NormalAll(lines)[0] == Normal(l) && NormalAll(lines)[1..] == NormalAll(lines[1..]);
      SameColumnsText(NextCarry(c, l), NextCarry(d, Normal(l)), lines[1..]);
      ConsEqual(LineText(EndLine(c, l).lineIndent, l), FormatLines(NextCarry(c, l), lines[1..]),
                LineText(EndLine(d, Normal(l)).lineIndent, Normal(l)),
                  FormatLines(NextCarry(d, Normal(l)), NormalAll(lines[1..])));
    }
  }

  lemma ConsEqual(x: string, xs: seq<string>, y: string, ys: seq<string>)
    ensures [x] + xs == [y] + ys <==> x == y && xs == ys
  {
    assert ([x] + xs)[0] == x && ([y] + ys)[0] == y;
    assert ([x] + xs)[1..] == xs && ([y] + ys)[1..] == ys;
  }

  lemma JoinInjective(a: seq<string>, b: seq<string>)
    requires forall i :: 0 <= i < |a| ==> Clean(a[i])
    requires forall i :: 0 <= i < |b| ==> Clean(b[i])
    ensures JoinLines(a) == JoinLines(b) <==> a == b
  {
    SplitJoin(a);
    SplitJoin(b);
  }

  /** A second pass changes nothing. */
  ghost predicate Stable(text: string)
    requires AllAscii(text)
  {
    Format(Format(text).value) == Format(text)
  }

  /** One pass is stable exactly when every comment that jolts the indentation as it moves stands on the last
      line, blank ones aside, or is followed by a line that closes the parenthesis in question. */
  lemma {:induction false} StableIff(text: string)
    requires AllAscii(text)
    ensures Stable(text) <==> Unseen(START, Source(text))
  {
    hide FormatLines, Normal, Trim, SplitLines, SameColumns, JoinLines, Clean, Trimmed, Unseen;
    var lines := Source(text);
    SourceProper(text);
    OnePass(text);
    SameColumnsText(START, START, lines);
    Follows(START, START, lines);
    if lines == [] {
      EmptyFile();
      FormatOfSource(Format(text).value, [""]);
      NothingToCompare();
    } else {
      var once := Format(text).value;
      FormatOfSource(once, NormalAll(lines));
      FormattedClean(START, lines);
      SourceProper(once);
      FormattedClean(START, NormalAll(lines));
      JoinInjective(FormatLines(START, lines), FormatLines(START, NormalAll(lines)));
    }
  }

  /** Line by line: moving the comment leaves the column of the line alone, and changes the indent stack that
      is carried on exactly if it jolts. */
  lemma {:induction false} JoltChangesStack(c: Carry, line: string)
    requires Trimmed(line) && NonNegative(c.indentStack)
    ensures EndLine(c, Normal(line)).lineIndent == EndLine(c, line).lineIndent
    ensures NextCarry(c, Normal(line)).indentStack != NextCarry(c, line).indentStack <==> Jolts(c, line)
  {
    hide EndLine, Trimmed, Normal, Jolts, NextCarry;
    BlankKeeps(c);
    if line != [] {
      SameLine(c, c, line);
      NormalParts(line);
      CodeColumn(c, line);
      LineParts(line);
      CodeColumn(c, Normal(line));
    }
  }

  /** No comment jolts as it moves. */
  ghost predicate AllCalm(c: Carry, lines: seq<string>)
    decreases |lines|
  {
    lines != [] ==> !Jolts(c, lines[0]) && AllCalm(NextCarry(c, lines[0]), lines[1..])
  }

  /** In particular one pass is stable if no comment jolts. */
  lemma {:induction false} CalmIsStable(text: string)
    requires AllAscii(text) && AllCalm(START, Source(text))
    ensures Stable(text)
  {
    StableIff(text);
    CalmIsUnseen(START, Source(text));
  }

  lemma {:induction false} CalmIsUnseen(c: Carry, lines: seq<string>)
    requires AllCalm(c, lines)
    ensures Unseen(c, lines)
    decreases |lines|
  {
    if lines != [] {
      CalmIsUnseen(NextCarry(c, lines[0]), lines[1..]);
    }
  }

  lemma NothingToCompare()
    ensures SameColumns(START, START, []) && Unseen(START, [])
  {
  }

  // ------------------------------------------------------------ one pass is not enough

  lemma CloseComment()
    ensures NextCarry(START, "(if;c").indentStack == [2]
  {
    var s := "(if;c";
    var k0 := StartLine(START);
    var k1 := StepChar(0, Track(k0, '('), 0, '(');
    var k2 := StepChar(0, Track(k1, 'i'), 1, 'i');
    var k3 := StepChar(0, Track(k2, 'f'), 2, 'f');
    var k4 := StepChar(0, Track(k3, ';'), 3, ';');
    assert RunLine(0, k0, s, 0) == RunLine(0, k1, s, 1) == RunLine(0, k2, s, 2) == RunLine(0, k3, s, 3) ==
           RunLine(0, k4, s, 4);
    assert k4.carry.indentStack == [2] && k4.semis == 1;
    assert RunLine(0, k4, s, 4) == Track(k4, 'c');
  }

  lemma SpacedComment()
    ensures NextCarry(START, "(if  ;c").indentStack == [5]
  {
    var s := "(if  ;c";
    var k0 := StartLine(START);
    var k1 := StepChar(0, Track(k0, '('), 0, '(');
    var k2 := StepChar(0, Track(k1, 'i'), 1, 'i');
    var k3 := StepChar(0, Track(k2, 'f'), 2, 'f');
    var k4 := StepChar(0, Track(k3, ' '), 3, ' ');
    var k5 := StepChar(0, Track(k4, ' '), 4, ' ');
    var k6 := StepChar(0, Track(k5, ';'), 5, ';');
    assert k3.carry.formName == "if";
    assert RunLine(0, k0, s, 0) == RunLine(0, k1, s, 1) == RunLine(0, k2, s, 2) == RunLine(0, k3, s, 3);
    assert RunLine(0, k3, s, 3) == RunLine(0, k4, s, 4) == RunLine(0, k5, s, 5) == RunLine(0, k6, s, 6);
    assert k6.carry.indentStack == [5] && k6.semis == 1;
    assert RunLine(0, k6, s, 6) == Track(k6, 'c');
  }

  /** A comment right after `(if` is moved away by the first pass, and only then does the second pass
      see the name `if` and indent the next line by its rule. */
  lemma OnePassMayNotBeStable() returns (text: string)
    ensures AllAscii(text) && !Stable(text)
  {
    hide Stable, JoinLines, Trim;
    var a, x := "(if;c", "x";
    text := JoinLines([a, x]);
    assert Clean(a) && Clean(x);
    JoinAscii([a, x]);
    SplitJoin([a, x]);
    Untouched(a);
    Untouched(x);
    ExampleIsUnstable(text, a, x);
  }

  ghost predicate IsExample(text: string, a: string, x: string) {
    AllAscii(text) && Source(text) == [a, x] && a == "(if;c" && x == "x"
  }

  lemma ExampleIsUnstable(text: string, a: string, x: string)
    requires IsExample(text, a, x)
    ensures !Stable(text)
  {
    hide FormatLines, SplitLines, JoinLines, Normal, Trim, Source;
    var b := "(if  ;c";
    FormatOfSource(text, [a, x]);
    OnePass(text);
    NormalIf();
    NormalX();
    assert NormalAll([a, x]) == [b, x];
    var once := Format(text).value;
    FormatOfSource(once, [b, x]);
    SourceProper(once);
    SecondLines(a, b, x);
    SourceProper(text);
    FormattedClean(START, [a, x]);
    FormattedClean(START, [b, x]);
    JoinInjective(FormatLines(START, [a, x]), FormatLines(START, [b, x]));
  }

  lemma NormalIf()
    ensures Normal("(if;c") == "(if  ;c"
  {
    var a := "(if;c";
    assert CommentFrom(a, 0, CODE) == CommentFrom(a, 1, CODE) == CommentFrom(a, 2, CODE) ==
           CommentFrom(a, 3, CODE) == 3;
    assert a[..3] == "(if" == "(if" + [];
    TrimEndPad("(if", []);
  }

  lemma SecondLines(a: string, b: string, x: string)
    requires a == "(if;c" && b == "(if  ;c" && x == "x"
    ensures FormatLines(START, [a, x])[1] != FormatLines(START, [b, x])[1]
  {
    CloseComment();
    SpacedComment();
    SecondLine(START, a, x);
    SecondLine(START, b, x);
    assert |Spaces(2) + "x"| == 3 && |Spaces(5) + "x"| == 6;
  }

  lemma Untouched(s: string)
    requires s != [] && !IsSpace(s[0]) && !IsSpace(s[|s| - 1])
    ensures Trim(s) == s
  {
    assert [] + s == s;
    TrimPadded([], s);
  }

  lemma NormalX()
    ensures Normal("x") == "x"
  {
    var x := "x";
    assert CommentFrom(x, 0, CODE) == CommentFrom(x, 1, CODE) == 1;
    assert x[..1] == x == x + [];
    TrimEndPad(x, []);
  }

  lemma SecondLine(c: Carry, first: string, second: string)
    requires second == "x"
    ensures FormatLines(c, [first, second])[1] == Spaces(Top(NextCarry(c, first).indentStack)) + "x"
  {
    NormalX();
    var d := NextCarry(c, first);
    assert [first, second][1..] == [second];
    var k := StepChar(d.parenLevel, Track(StartLine(d), 'x'), 0, 'x');
    assert EndLine(d, second) == RunLine(d.parenLevel, k, second, 1) == k;
    assert FormatLines(d, [second])[0] == LineText(k.lineIndent, second);
  }
}
