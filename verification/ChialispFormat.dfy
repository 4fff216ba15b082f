/** The formatter's state machine as a function on trimmed lines, and what formatting preserves. */
module ChialispFormat {
  import opened AsciiText
  import opened Bytes
  import opened Chialisp

  // ------------------------------------------------------------ state carried between lines

  /** `gettingFormName` is 1 after an opening parenthesis, 2 inside the name that follows, 0 elsewhere. */
  datatype Carry = Carry(
    parenLevel: int,
    gettingFormName: int,
    formName: string,
    resetFormIndent: bool,
    indentStack: seq<int>)

  const START := Carry(0, 0, [], false, [])

  /** The variables of the loop over one line. */
  datatype Cursor = Cursor(carry: Carry, lineIndent: int, quote: Quote, semis: nat, semiOff: nat)

  function Top(stack: seq<int>): int {
    if stack == [] then 0 else stack[|stack| - 1]
  }

  function TrackForm(c: Carry, ch: char): Carry {
    if c.gettingFormName <= 0 then c
    else if c.gettingFormName == 1 && ch != ' ' then
      c.(resetFormIndent := false, gettingFormName := 2, formName := c.formName + [ch])
    else if c.gettingFormName == 2 && (ch == ' ' || ch == '(' || ch == ')') then
      c.(resetFormIndent := false, gettingFormName := 0)
    else c.(resetFormIndent := false, formName := c.formName + [ch])
  }

  /** The special rule for `if`: its first argument sets the column of the others. */
  predicate ShouldReset(c: Carry, ch: char) {
    c.gettingFormName == 0 && c.formName == "if" && ch != ' ' && !c.resetFormIndent
  }

  function ResetTop(stack: seq<int>, col: int): seq<int> {
    if stack == [] then stack else stack[|stack| - 1 := col]
  }

  function Reset(c: Carry, ch: char, col: int): Carry {
    if ShouldReset(c, ch) then c.(indentStack := ResetTop(c.indentStack, col), resetFormIndent := true) else c
  }

  function Opened(c: Carry): Carry {
    c.(parenLevel := c.parenLevel + 1, indentStack := c.indentStack + [Top(c.indentStack) + 2],
       formName := [], gettingFormName := 1)
  }

  function Closed(c: Carry): Carry {
    c.(parenLevel := c.parenLevel - 1,
       indentStack := if c.indentStack == [] then [] else c.indentStack[..|c.indentStack| - 1])
  }

  /** How far the innermost indentation is from the one around it. */
  function IndentDiff(stack: seq<int>): int {
    Top(stack) - if |stack| > 1 then stack[|stack| - 2] else 0
  }

  /** One character of a line, its form tracking already done. */
  function StepChar(startLevel: int, k: Cursor, i: nat, ch: char): Cursor {
    if k.semis > 0 then k.(semis := k.semis + 1)
    else if k.quote != CODE || ch == '\'' || ch == '"' then k.(quote := AfterChar(k.quote, ch))
    else if ch == '(' then k.(carry := Opened(Reset(k.carry, ch, k.lineIndent + i)))
    else if ch == ')' then
      k.(carry := Closed(k.carry),
         lineIndent :=
           if k.carry.parenLevel <= startLevel then k.lineIndent - IndentDiff(k.carry.indentStack)
           else k.lineIndent)
    else
      var k' := k.(carry := Reset(k.carry, ch, k.lineIndent + i));
      if ch == ';' then k'.(semis := 1, semiOff := i) else k'
  }

  function Track(k: Cursor, ch: char): Cursor {
    k.(carry := TrackForm(k.carry, ch))
  }

  /** The loop over a line. It stops at the first character of a comment's text. */
  function RunLine(startLevel: int, k: Cursor, line: string, i: nat): Cursor
    requires i <= |line|
    decreases |line| - i
  {
    if i == |line| then k
    else
      var k' := Track(k, line[i]);
      if k.semis > 0 && line[i] != ';' then k'
      else RunLine(startLevel, StepChar(startLevel, k', i, line[i]), line, i + 1)
  }

  /** The next line is indented at most one unit more than this one. */
  function Clamp(stack: seq<int>, startLen: nat): seq<int> {
    if |stack| > startLen + 1
    then stack[..startLen + 1] + seq(|stack| - startLen - 1, _ => stack[startLen + 1])
    else stack
  }

  function StartLine(c: Carry): Cursor {
    Cursor(c, Top(c.indentStack), CODE, 0, 0)
  }

  function EndLine(c: Carry, line: string): Cursor {
    RunLine(c.parenLevel, StartLine(c), line, 0)
  }

  function NextCarry(c: Carry, line: string): Carry {
    var k := EndLine(c, line);
    k.carry.(indentStack := Clamp(k.carry.indentStack, |c.indentStack|))
  }

  function Spaces(n: int): (s: string)
    ensures |s| == if n <= 0 then 0 else n
    ensures AllSpace(s) && forall i :: 0 <= i < |s| ==> s[i] == ' '
  {
    if n <= 0 then [] else seq(n, _ => ' ')
  }

  /** What is written for a trimmed line. */
  function LineText(indent: int, line: string): string {
    if Normal(line) == [] then [] else Spaces(indent) + Normal(line)
  }

  function FormatLines(c: Carry, lines: seq<string>): (out: seq<string>)
    ensures |out| == |lines|
    decreases |lines|
  {
    if lines == [] then []
    else [LineText(EndLine(c, lines[0]).lineIndent, lines[0])] + FormatLines(NextCarry(c, lines[0]), lines[1..])
  }

  // ------------------------------------------------------------ files

  function TrimAll(lines: seq<string>): seq<string> {
    seq(|lines|, i requires 0 <= i < |lines| => Trim(lines[i]))
  }

  /** The lines of a file; text after the last newline counts only if there is some. */
  function SplitLines(text: string, line: string): seq<string>
    decreases |text|
  {
    if text == [] then (if line == [] then [] else [line])
    else if text[0] == '\n' then [line] + SplitLines(text[1..], [])
    else SplitLines(text[1..], line + [text[0]])
  }

  function JoinLines(lines: seq<string>): string {
    if lines == [] then [] else lines[0] + "\n" + JoinLines(lines[1..])
  }

  /** `b"\n".join(lines) + b"\n"`. */
  function WriteLines(lines: seq<string>): string {
    if lines == [] then "\n" else JoinLines(lines)
  }

  /** The formatted file; None is the decoding exception for a byte outside ASCII. */
  function Format(text: string): Option<string> {
    if AllAscii(text)
    then Some(WriteLines(FormatLines(START, TrimAll(SplitLines(text, [])))))
    else None
  }

  // ------------------------------------------------------------ splitting and joining

  /** Text that can stand on a line of an ASCII file. */
  ghost predicate Clean(s: string) {
    forall i :: 0 <= i < |s| ==> IsAscii(s[i]) && s[i] != '\n'
  }

  lemma {:induction false} SplitLine(head: string, rest: string, line: string)
    requires Clean(head)
    ensures SplitLines(head + "\n" + rest, line) == [line + head] + SplitLines(rest, [])
    decreases |head|
  {
    var text := head + "\n" + rest;
    if head == [] {
      assert text == ['\n'] + rest;
      assert text[1..] == rest;
      assert line + head == line;
    } else {
      assert text[1..] == head[1..] + "\n" + rest;
      SplitLine(head[1..], rest, line + [head[0]]);
      assert line + [head[0]] + head[1..] == line + head;
    }
  }

  /** Splitting undoes joining. */
  lemma {:induction false} SplitJoin(lines: seq<string>)
    requires forall i :: 0 <= i < |lines| ==> Clean(lines[i])
    ensures SplitLines(JoinLines(lines), []) == lines
    decreases |lines|
  {
    if lines != [] {
      SplitLine(lines[0], JoinLines(lines[1..]), []);
      SplitJoin(lines[1..]);
      assert [] + lines[0] == lines[0];
      assert lines == [lines[0]] + lines[1..];
    }
  }

  ghost predicate NoNewline(s: string) {
    forall i :: 0 <= i < |s| ==> s[i] != '\n'
  }

  /** The newline that is missing at the end of a text. */
  function Ending(text: string): string {
    if text == [] || text[|text| - 1] == '\n' then "" else "\n"
  }

  /** Joining undoes splitting, up to a newline at the end, and no line holds a newline. */
  lemma {:induction false} JoinSplit(text: string, line: string)
    requires NoNewline(line)
    ensures JoinLines(SplitLines(text, line)) == line + text + Ending(line + text)
    ensures forall l :: l in SplitLines(text, line) ==> NoNewline(l)
    decreases |text|
  {
    hide Ending;
    if text == [] {
      JoinLast(line);
    } else if text[0] == '\n' {
      JoinSplit(text[1..], []);
      JoinFirst(line, text, SplitLines(text[1..], []));
    } else {
      JoinSplit(text[1..], line + [text[0]]);
      assert line + [text[0]] + text[1..] == line + text;
    }
  }

  lemma JoinLast(line: string)
    requires NoNewline(line)
    ensures JoinLines(if line == [] then [] else [line]) == line + [] + Ending(line + [])
  {
    assert line + [] == line;
    if line != [] {
      assert [line][1..] == [] && JoinLines([line]) == line + "\n" + [];
    }
  }

  lemma EndingLast(line: string, text: string)
    requires text != [] && text[0] == '\n'
    ensures Ending(text[1..]) == Ending(line + text)
  {
    assert (line + text)[|line + text| - 1] == text[|text| - 1];
  }

  lemma NewlineFirst(line: string, text: string, end: string)
    requires text != [] && text[0] == '\n'
    ensures line + "\n" + ([] + text[1..] + end) == line + text + end && [] + text[1..] == text[1..]
  {
    assert text == "\n" + text[1..];
  }

  lemma JoinFirst(line: string, text: string, rest: seq<string>)
    requires text != [] && text[0] == '\n' && JoinLines(rest) == [] + text[1..] + Ending([] + text[1..])
    ensures JoinLines([line] + rest) == line + text + Ending(line + text)
  {
    hide Ending;
    EndingLast(line, text);
    NewlineFirst(line, text, Ending(line + text));
    assert ([line] + rest)[1..] == rest;
  }

  // ------------------------------------------------------------ two passes are enough

  ghost predicate AllTrimmed(lines: seq<string>) {
    forall i :: 0 <= i < |lines| ==> Trimmed(lines[i])
  }

  function NormalAll(lines: seq<string>): seq<string> {
    seq(|lines|, i requires 0 <= i < |lines| => Normal(lines[i]))
  }

  /** Reading back a formatted line gives its normal form. */
  lemma TrimText(indent: int, line: string)
    requires Trimmed(line)
    ensures Trim(LineText(indent, line)) == Normal(line)
  {
    LineParts(line);
    TrimPadded(Spaces(indent), Normal(line));
  }

  lemma {:induction false} FormattedLine(c: Carry, lines: seq<string>, i: nat)
    requires i < |lines|
    ensures exists indent :: FormatLines(c, lines)[i] == LineText(indent, lines[i])
    decreases |lines|
  {
    hide LineText, EndLine, NextCarry;
    if i > 0 {
      FormattedLine(NextCarry(c, lines[0]), lines[1..], i - 1);
      assert lines[1..][i - 1] == lines[i];
      assert FormatLines(c, lines)[i] == FormatLines(NextCarry(c, lines[0]), lines[1..])[i - 1];
    } else {
      var indent := EndLine(c, lines[0]).lineIndent;
      assert FormatLines(c, lines)[0] == LineText(indent, lines[0]);
    }
  }

  ghost predicate ReadsBack(out: seq<string>, lines: seq<string>) {
    TrimAll(out) == NormalAll(lines)
  }

  lemma TrimFormatted(c: Carry, lines: seq<string>)
    requires AllTrimmed(lines)
    ensures ReadsBack(FormatLines(c, lines), lines)
  {
    var out := FormatLines(c, lines);
    forall i | 0 <= i < |lines|
      ensures Trim(out[i]) == Normal(lines[i])
    {
      FormattedLine(c, lines, i);
      var indent :| out[i] == LineText(indent, lines[i]);
      TrimText(indent, lines[i]);
    }
  }

  /** A formatted line has only characters of its input line, and spaces. */
  lemma TextClean(indent: int, line: string)
    requires Trimmed(line) && Clean(line)
    ensures Clean(LineText(indent, line))
  {
    hide Code, Trimmed, CommentAt;
    LineParts(line);
    var code, comment := Code(line), Comment(line);
    var gap := line[|code|..CommentAt(line)];
    CleanConcat(code + gap, comment);
    CleanConcat(code, gap);
    CleanConcat(code, "  ");
    CleanConcat(code + "  ", comment);
    CleanConcat(code, comment);
    CleanConcat(Spaces(indent), Normal(line));
  }

  lemma CleanConcat(s: string, t: string)
    ensures Clean(s + t) <==> Clean(s) && Clean(t)
  {
    assert forall i :: 0 <= i < |s| ==> (s + t)[i] == s[i];
    assert forall i :: 0 <= i < |t| ==> (s + t)[|s| + i] == t[i];
  }

  lemma FormattedClean(c: Carry, lines: seq<string>)
    requires AllTrimmed(lines) && forall i :: 0 <= i < |lines| ==> Clean(lines[i])
    ensures forall i :: 0 <= i < |lines| ==> Clean(FormatLines(c, lines)[i])
  {
    var out := FormatLines(c, lines);
    forall i | 0 <= i < |lines|
      ensures Clean(out[i])
    {
      FormattedLine(c, lines, i);
      var indent :| out[i] == LineText(indent, lines[i]);
      TextClean(indent, lines[i]);
    }
  }

  lemma {:induction false} JoinAscii(lines: seq<string>)
    requires forall i :: 0 <= i < |lines| ==> Clean(lines[i])
    ensures AllAscii(JoinLines(lines))
    decreases |lines|
  {
    if lines != [] {
      JoinAscii(lines[1..]);
      assert Clean(lines[0]);
    }
  }

  /** The trimmed lines of a file. */
  function Source(text: string): seq<string> {
    TrimAll(SplitLines(text, []))
  }

  lemma {:induction false} SplitClean(text: string, line: string)
    requires Clean(line) && AllAscii(text)
    ensures forall i :: 0 <= i < |SplitLines(text, line)| ==> Clean(SplitLines(text, line)[i])
    decreases |text|
  {
    if text != [] {
      if text[0] == '\n' {
        SplitClean(text[1..], []);
      } else {
        SplitClean(text[1..], line + [text[0]]);
      }
    }
  }

  lemma SourceProper(text: string)
    requires AllAscii(text)
    ensures AllTrimmed(Source(text))
    ensures forall i :: 0 <= i < |Source(text)| ==> Clean(Source(text)[i])
  {
    var raw := SplitLines(text, []);
    SplitClean(text, []);
    forall i | 0 <= i < |raw|
      ensures Trimmed(Source(text)[i]) && Clean(Source(text)[i])
    {
      TrimIsTrimmed(raw[i]);
      assert Clean(TrimEnd(raw[i]));
    }
  }

  ghost predicate Normalises(before: string, after: string) {
    AllAscii(after) && Source(after) == if Source(before) == [] then [""] else NormalAll(Source(before))
  }

  /** The output of one pass: still ASCII, and its trimmed lines are the normal forms of the input's. */
  lemma {:induction false} OnePass(text: string)
    requires AllAscii(text)
    ensures Normalises(text, Format(text).value)
  {
    hide FormatLines, Trim, SplitLines, Normal, Trimmed;
    var lines := Source(text);
    var out := FormatLines(START, lines);
    SourceProper(text);
    FormattedClean(START, lines);
    if lines == [] {
      NewlineSource();
    } else {
      assert Format(text).value == JoinLines(out);
      JoinAscii(out);
      SplitJoin(out);
      TrimFormatted(START, lines);
    }
  }

  lemma NewlineSource()
    ensures Source("\n") == [""]
  {
    SplitLine([], [], []);
    assert [] + "\n" + [] == "\n";
    assert SplitLines("\n", []) == [[]];
  }

  lemma FormatOfSource(text: string, lines: seq<string>)
    requires AllAscii(text)
    requires Source(text) == lines
    ensures Format(text) == Some(WriteLines(FormatLines(START, lines)))
  {
  }

  lemma NormalAllIdempotent(lines: seq<string>)
    requires AllTrimmed(lines)
    ensures NormalAll(NormalAll(lines)) == NormalAll(lines)
  {
    forall i | 0 <= i < |lines|
      ensures Normal(Normal(lines[i])) == Normal(lines[i])
    {
      NormalIdempotent(lines[i]);
    }
  }

  /** After one more pass, another changes nothing. */
  ghost predicate StableAfter(text: string) {
    Format(text).Some? && Format(Format(text).value) == Format(text)
  }

  /** Formatting reaches a fixpoint after two passes, for every ASCII file. */
  lemma {:induction false} TwoPassesAreStable(text: string)
    requires AllAscii(text)
    ensures StableAfter(Format(text).value)
  {
    hide FormatLines, Normal, Trim, SplitLines;
    var lines := Source(text);
    SourceProper(text);
    var once := Format(text).value;
    OnePass(text);
    if lines == [] {
      assert NormalAll([""]) == [""] by { EmptyIsNormal(); }
      assert once == "\n";
      FormatOfSource(once, [""]);
      EmptyFile();
      FormatOfSource(once, [""]);
    } else {
      FormatOfSource(once, NormalAll(lines));
      var twice := Format(once).value;
      OnePass(once);
      NormalAllIdempotent(lines);
      assert Source(twice) == NormalAll(lines);
      FormatOfSource(twice, NormalAll(lines));
    }
  }

  lemma EmptyIsNormal()
    ensures Normal("") == "" && Trimmed("")
  {
  }

  lemma EmptyFile()
    ensures WriteLines(FormatLines(START, [""])) == "\n"
  {
    assert FormatLines(START, [""]) == [""];
    assert JoinLines([""]) == "" + "\n" + JoinLines([]);
  }

  /** One pass is already stable when every line is in comment normal form: no code before the comment,
      or exactly two spaces between them. */
  lemma {:induction false} NormalIsStable(text: string)
    requires AllAscii(text)
    requires forall i :: 0 <= i < |Source(text)| ==> Normal(Source(text)[i]) == Source(text)[i]
    ensures Format(Format(text).value) == Format(text)
  {
    hide FormatLines, Normal, Trim, SplitLines;
    var lines := Source(text);
    OnePass(text);
    if lines == [] {
      EmptyFile();
      FormatOfSource(Format(text).value, [""]);
    } else {
      assert NormalAll(lines) == lines;
      FormatOfSource(Format(text).value, lines);
    }
  }
}
