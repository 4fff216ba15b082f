/** Properties of the formatter beyond the fixpoint: what it keeps of the text, and the depth of its
    indent stack. */
module ChialispProperties {
  import opened AsciiText
  import opened Chialisp
  import opened ChialispFormat

  // ------------------------------------------------------------ content

  /** `after` is `before` re-indented: both have the same code, byte for byte, and the same comment with
      its semicolons, which starts outside every string literal. The code does not end in white space, so
      only leading white space, trailing white space and the white space in front of a comment differ, and
      the last of these is exactly two spaces afterwards. */
  ghost predicate Reindented(before: string, after: string) {
    exists code, gap, comment, indent: int :: ReindentedAs(before, after, code, gap, comment, indent)
  }

  ghost predicate ReindentedAs(before: string, after: string, code: string, gap: string, comment: string, indent: int) {
    && Trim(before) == code + gap + comment
    && AllSpace(gap)
    && (comment != [] ==> comment[0] == ';')
    && (code != [] ==> !IsSpace(code[|code| - 1]))
    && CommentFree(code, CODE)
    && (comment != [] ==> AfterText(code, CODE) == CODE)
    && after == (if code + comment == [] then []
                 else Spaces(indent) + code + (if code == [] || comment == [] then [] else "  ") + comment)
  }

  lemma LineReindented(indent: int, raw: string)
    ensures Reindented(raw, LineText(indent, Trim(raw)))
  {
    var line := Trim(raw);
    assert Code(line) != [] ==> !IsSpace(Code(line)[|Code(line)| - 1]);
    hide Trim, Code, CommentAt, CommentFree, AfterText, Trimmed;
    TrimIsTrimmed(raw);
    LineParts(line);
    CodeEndsOutside(line);
    var code, comment := Code(line), Comment(line);
    var gap := line[|code|..CommentAt(line)];
    var sep := if code == [] || comment == [] then [] else "  ";
    assert Normal(line) == code + sep + comment;
    if code + comment != [] {
      Regroup(Spaces(indent), code, sep, comment);
    }
    assert ReindentedAs(raw, LineText(indent, line), code, gap, comment, indent);
  }

  lemma Regroup(a: string, b: string, c: string, d: string)
    ensures a + (b + c + d) == a + b + c + d
  {
  }

  /** The parts are those the formatter takes: nothing but the column of a re-indented line is free. */
  lemma ReindentedIff(before: string, after: string)
    ensures Reindented(before, after) <==> exists indent: int :: after == LineText(indent, Trim(before))
  {
    var line := Trim(before);
    if Reindented(before, after) {
      var code, gap, comment, indent: int :| ReindentedAs(before, after, code, gap, comment, indent);
      PartsAreUnique(before, after, code, gap, comment, indent);
      assert after == LineText(indent, line);
    }
    if indent: int :| after == LineText(indent, line) {
      LineReindented(indent, before);
    }
  }

  lemma PartsAreUnique(before: string, after: string, code: string, gap: string, comment: string, indent: int)
    requires ReindentedAs(before, after, code, gap, comment, indent)
    ensures Code(Trim(before)) == code && Comment(Trim(before)) == comment
    ensures after == LineText(indent, Trim(before))
  {
    hide Trim, CommentFree, AfterText;
    var line := Trim(before);
    TrimIsTrimmed(before);
    if comment == [] {
      assert line == code + gap;
      assert gap == [];
      assert line == code == code + [];
      assert line[0..|code|] == code;
      CommentPast(line, 0, code, CODE);
      assert line[..|line|] == line;
      TrimEndPad(code, []);
    } else {
      SpaceKeepsQuote(gap, CODE);
      FreeConcat(code, gap, CODE);
      Recombined(code, gap, comment);
    }
    var sep := if code == [] || comment == [] then [] else "  ";
    assert Normal(line) == code + sep + comment;
    Regroup(Spaces(indent), code, sep, comment);
  }

  ghost predicate AllReindented(raw: seq<string>, out: seq<string>) {
    if raw == [] then out == [""]
    else |out| == |raw| && forall i :: 0 <= i < |raw| ==> Reindented(raw[i], out[i])
  }

  /** A formatted file has a line for each line of the input (one, if there was none), and each is
      the input line re-indented. */
  lemma FormatKeepsContent(text: string)
    requires AllAscii(text)
    ensures AllReindented(SplitLines(text, []), SplitLines(Format(text).value, []))
  {
    var raw := SplitLines(text, []);
    var lines := Source(text);
    var out := FormatLines(START, lines);
    SourceProper(text);
    FormattedClean(START, lines);
    if raw == [] {
      NewlineSource();
      SplitLine([], [], []);
      assert [] + "\n" + [] == "\n";
    } else {
      SplitJoin(out);
      forall i | 0 <= i < |raw|
        ensures Reindented(raw[i], out[i])
      {
        FormattedLine(START, lines, i);
        var indent :| out[i] == LineText(indent, lines[i]);
        LineReindented(indent, raw[i]);
      }
    }
  }

  // ------------------------------------------------------------ depth of the indent stack

  /** The parentheses of a line that are neither in a string literal nor in a comment. */
  function ParensFrom(line: string, i: nat, q: Quote): string
    requires i <= |line|
    decreases |line| - i
  {
    if i == |line| || StartsComment(q, line[i]) then []
    else
      (if q == CODE && (line[i] == '(' || line[i] == ')') then [line[i]] else [])
      + ParensFrom(line, i + 1, AfterChar(q, line[i]))
  }

  function Parens(lines: seq<string>): string {
    if lines == [] then [] else ParensFrom(lines[0], 0, CODE) + Parens(lines[1..])
  }

  /** Opening parentheses not yet closed; a closing one without a partner counts for nothing. */
  function Unmatched(depth: nat, parens: string): nat
    decreases |parens|
  {
    if parens == [] then depth
    else Unmatched(if parens[0] == '(' then depth + 1 else if depth == 0 then 0 else depth - 1, parens[1..])
  }

  /** Opening minus closing parentheses. */
  function Level(level: int, parens: string): int
    decreases |parens|
  {
    if parens == [] then level
    else Level(if parens[0] == '(' then level + 1 else level - 1, parens[1..])
  }

  /** The lowest level met on the way, or `low` if that is lower. */
  function Lowest(level: int, low: int, parens: string): int
    decreases |parens|
  {
    if parens == [] then low
    else
      var next := if parens[0] == '(' then level + 1 else level - 1;
      Lowest(next, if next < low then next else low, parens[1..])
  }

  function CarryAfter(c: Carry, lines: seq<string>): Carry
    decreases |lines|
  {
    if lines == [] then c else CarryAfter(NextCarry(c, lines[0]), lines[1..])
  }

  ghost predicate Balances(before: Carry, parens: string, after: Carry) {
    && after.parenLevel == Level(before.parenLevel, parens)
    && |after.indentStack| == Unmatched(|before.indentStack|, parens)
  }

  /** The parenthesis that one character contributes. */
  function ParenOf(q: Quote, ch: char): string {
    if q == CODE && (ch == '(' || ch == ')') then [ch] else []
  }

  /** One character outside comments moves level and stack by its parenthesis. */
  lemma StepBalances(startLevel: int, k: Cursor, i: nat, ch: char)
    requires k.semis == 0 && !StartsComment(k.quote, ch)
    ensures var k' := StepChar(startLevel, Track(k, ch), i, ch);
            k'.semis == 0 && k'.quote == AfterChar(k.quote, ch) && Balances(k.carry, ParenOf(k.quote, ch), k'.carry)
  {
    var p := ParenOf(k.quote, ch);
    if p != [] {
      assert p[1..] == [];
    }
  }

  /** A character of a comment's text moves neither, and neither does a semicolon. */
  lemma TextBalances(k: Cursor, ch: char)
    ensures Balances(k.carry, [], Track(k, ch).carry)
  {
  }

  lemma SemicolonBalances(startLevel: int, k: Cursor, i: nat)
    requires k.quote == CODE
    ensures StepChar(startLevel, Track(k, ';'), i, ';').semis > 0
            && StepChar(startLevel, Track(k, ';'), i, ';').quote == CODE
    ensures Balances(k.carry, [], StepChar(startLevel, Track(k, ';'), i, ';').carry)
  {
  }

  lemma {:induction false} RunLineBalances(startLevel: int, k: Cursor, line: string, i: nat)
    requires i <= |line| && (k.semis > 0 ==> k.quote == CODE)
    ensures Balances(k.carry, if k.semis > 0 then [] else ParensFrom(line, i, k.quote),
                     RunLine(startLevel, k, line, i).carry)
    decreases |line| - i
  {
    hide StepChar, Track, Balances, ParenOf, AfterChar;
    if i == |line| {
      BalancesNothing(k.carry);
    } else {
      var ch := line[i];
      var k' := StepChar(startLevel, Track(k, ch), i, ch);
      if k.semis > 0 || StartsComment(k.quote, ch) {
        TextBalances(k, ch);
        if ch == ';' {
          SemicolonBalances(startLevel, k, i);
          RunLineBalances(startLevel, k', line, i + 1);
          BalancesThen(k.carry, [], k'.carry, [], RunLine(startLevel, k', line, i + 1).carry);
          assert [] + [] == "";
        }
      } else {
        StepBalances(startLevel, k, i, ch);
        TrackKeeps(k, ch);
        RunLineBalances(startLevel, k', line, i + 1);
        ParensNext(line, i, k.quote);
        BalancesThen(k.carry, ParenOf(k.quote, ch), k'.carry, ParensFrom(line, i + 1, k'.quote),
                     RunLine(startLevel, k', line, i + 1).carry);
      }
    }
  }

  lemma TrackKeeps(k: Cursor, ch: char)
    ensures Track(k, ch).semis == k.semis
  {
  }

  lemma ParensNext(line: string, i: nat, q: Quote)
    requires i < |line| && !StartsComment(q, line[i])
    ensures ParensFrom(line, i, q) == ParenOf(q, line[i]) + ParensFrom(line, i + 1, AfterChar(q, line[i]))
  {
  }

  lemma BalancesNothing(c: Carry)
    ensures Balances(c, [], c)
  {
  }

  lemma BalancesThen(a: Carry, s: string, b: Carry, t: string, c: Carry)
    requires Balances(a, s, b) && Balances(b, t, c)
    ensures Balances(a, s + t, c)
  {
    BalancesConcat(|a.indentStack|, a.parenLevel, s, t);
  }

  lemma {:induction false} BalancesConcat(depth: nat, level: int, s: string, t: string)
    ensures Unmatched(depth, s + t) == Unmatched(Unmatched(depth, s), t)
    ensures Level(level, s + t) == Level(Level(level, s), t)
    decreases |s|
  {
    if s == [] {
      assert s + t == t;
    } else {
      assert (s + t)[1..] == s[1..] + t;
      BalancesConcat(if s[0] == '(' then depth + 1 else if depth == 0 then 0 else depth - 1,
                     if s[0] == '(' then level + 1 else level - 1, s[1..], t);
    }
  }

  lemma {:induction false} CarryBalances(c: Carry, lines: seq<string>)
    ensures Balances(c, Parens(lines), CarryAfter(c, lines))
    decreases |lines|
  {
    if lines != [] {
      RunLineBalances(c.parenLevel, StartLine(c), lines[0], 0);
      CarryBalances(NextCarry(c, lines[0]), lines[1..]);
      BalancesConcat(|c.indentStack|, c.parenLevel, ParensFrom(lines[0], 0, CODE), Parens(lines[1..]));
    }
  }

  lemma {:induction false} UnmatchedIsHeight(level: int, low: int, parens: string)
    requires low <= level
    ensures Lowest(level, low, parens) <= Level(level, parens)
    ensures Unmatched(level - low, parens) == Level(level, parens) - Lowest(level, low, parens)
    decreases |parens|
  {
    if parens != [] {
      var next := if parens[0] == '(' then level + 1 else level - 1;
      UnmatchedIsHeight(next, if next < low then next else low, parens[1..]);
    }
  }

  /** After any lines, the indent stack is as deep as the parentheses left open, which is the paren
      level minus the lowest level met so far (at most 0): unmatched closing parentheses drive the
      level below zero but never below the empty stack. */
  lemma StackDepth(lines: seq<string>)
    ensures var c := CarryAfter(START, lines);
            && c.parenLevel == Level(0, Parens(lines))
            && |c.indentStack| == Unmatched(0, Parens(lines)) == c.parenLevel - Lowest(0, 0, Parens(lines))
  {
    CarryBalances(START, lines);
    UnmatchedIsHeight(0, 0, Parens(lines));
  }
}
