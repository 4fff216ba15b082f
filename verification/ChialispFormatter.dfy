/** The class `Formatter` as the tool runs it: fields updated character by character. */
module ChialispFormatter {
  import opened AsciiText
  import opened Bytes
  import opened Chialisp
  import opened ChialispFormat

  /** Remove white space from the end. None is the decoding exception for a byte outside ASCII. */
  method TrimAsciiEnd(line: string) returns (r: Option<string>)
    ensures r == if AllAscii(line) then Some(TrimEnd(line)) else None
  {
    hide TrimEnd, IsSpace, IsAscii;
    var lastNonWs := 0;
    var gotOne := false;
    var i := 0;
    while i < |line|
      invariant 0 <= i <= |line|
      invariant forall j :: 0 <= j < i ==> IsAscii(line[j])
      invariant gotOne ==> 0 <= lastNonWs < i && !IsSpace(line[lastNonWs])
      invariant forall j :: (if gotOne then lastNonWs + 1 else 0) <= j < i ==> IsSpace(line[j])
    {
      if !IsAscii(line[i]) { return None; }
      if !IsSpace(line[i]) {
        gotOne := true;
        lastNonWs := i;
      }
      i := i + 1;
    }
    TrimmedAt(line, if gotOne then lastNonWs + 1 else 0);
    if !gotOne {
      return Some([]);
    } else {
      return Some(line[0..lastNonWs + 1]);
    }
  }

  lemma TrimmedAt(line: string, n: nat)
    requires n <= |line| && (n > 0 ==> !IsSpace(line[n - 1])) && forall j :: n <= j < |line| ==> IsSpace(line[j])
    ensures TrimEnd(line) == line[..n]
  {
    hide TrimEnd, IsSpace;
    var body, pad := line[..n], line[n..];
    assert body + pad == line;
    TrimEndPad(body, pad);
  }

  /** Remove white space from the beginning; only the part up to the first other character is decoded. */
  method TrimAsciiStart(line: string) returns (r: Option<string>)
    ensures r == if TrimStart(line) == [] || IsAscii(TrimStart(line)[0]) then Some(TrimStart(line)) else None
  {
    var firstNonWs := 0;
    var gotOne := false;
    var i := 0;
    while i < |line|
      invariant 0 <= i <= |line| && !gotOne
      invariant AllSpace(line[..i])
    {
      if !IsAscii(line[i]) {
        assert line[..i] + line[i..] == line;
        TrimStartPad(line[..i], line[i..]);
        return None;
      }
      if !IsSpace(line[i]) {
        gotOne := true;
        firstNonWs := i;
        break;
      }
      i := i + 1;
    }
    if !gotOne {
      assert line + [] == line && AllSpace(line) by { assert line[..|line|] == line; }
      TrimStartPad(line, []);
      return Some([]);
    } else {
      assert line[..firstNonWs] + line[firstNonWs..] == line;
      TrimStartPad(line[..firstNonWs], line[firstNonWs..]);
      return Some(line[firstNonWs..]);
    }
  }

  /** Both trims, one after the other. */
  method TrimBoth(line: string) returns (r: Option<string>)
    requires '\n' !in line
    ensures r == if AllAscii(line) then Some(Trim(line)) else None
    ensures r.Some? ==> Trimmed(r.value) && AllAscii(r.value) && '\n' !in r.value
  {
    hide TrimEnd;
    var ended := TrimAsciiEnd(line);
    if ended.None? {
      return None;
    }
    TrimmedLine(line);
    assert AllAscii(TrimStart(ended.value));
    r := TrimAsciiStart(ended.value);
  }

  class Formatter {
    var startParenLevel: int
    var parenLevel: int
    var outCol: int
    var line: string
    var lines: seq<string>
    var workLines: seq<string>
    var gettingFormName: int
    var formName: string
    var resetFormIndent: bool
    var resultLine: string
    var indentStack: seq<int>
    var result: seq<string>

    constructor ()
      ensures Carried() == START && line == [] && lines == [] && Idle() && workLines == [] && result == []
    {
      startParenLevel, parenLevel, outCol := 0, 0, 0;
      line, lines, workLines := [], [], [];
      gettingFormName, formName, resetFormIndent := 0, [], false;
      resultLine, indentStack, result := [], [], [];
    }

    /** The fields that carry over from one line to the next. */
    ghost function Carried(): Carry
      reads this
    {
      Carry(parenLevel, gettingFormName, formName, resetFormIndent, indentStack)
    }

    /** Nothing has been written on the current output line. */
    ghost predicate Idle()
      reads this
    {
      resultLine == [] && outCol == 0
    }

    /** Add a character of source, breaking the source into lines. */
    method RunChar(ch: char)
      modifies this
      ensures lines == (if ch == '\n' then old(lines) + [old(line)] else old(lines))
      ensures line == (if ch == '\n' then [] else old(line) + [ch])
      ensures Carried() == old(Carried()) && workLines == old(workLines) && result == old(result)
      ensures resultLine == old(resultLine) && outCol == old(outCol)
    {
      if ch == '\n' {
        FinishLine();
      } else {
        line := line + [ch];
      }
    }

    method FinishLine()
      modifies this
      ensures lines == old(lines) + [old(line)] && line == []
      ensures Carried() == old(Carried()) && workLines == old(workLines) && result == old(result)
      ensures resultLine == old(resultLine) && outCol == old(outCol)
    {
      lines := lines + [line];
      line := [];
    }

    /** Write a character; a newline ends the output line. */
    method OutputChar(ch: char)
      modifies `workLines, `resultLine, `outCol
      ensures ch == '\n' ==> workLines == old(workLines) + [old(resultLine)] && Idle()
      ensures ch != '\n' ==>
              workLines == old(workLines) && resultLine == old(resultLine) + [ch] && outCol == old(outCol) + 1
    {
      if ch == '\n' {
        workLines := workLines + [resultLine];
        resultLine := [];
        outCol := 0;
      } else {
        resultLine := resultLine + [ch];
        outCol := outCol + 1;
      }
    }

    /** The loops that write a stretch of text. */
    method OutputText(text: string)
      requires '\n' !in text
      modifies `workLines, `resultLine, `outCol
      ensures workLines == old(workLines) && resultLine == old(resultLine) + text && outCol == old(outCol) + |text|
    {
      for i := 0 to |text|
        invariant workLines == old(workLines) && resultLine == old(resultLine) + text[..i] && outCol == old(outCol) + i
      {
        assert text[..i + 1] == text[..i] + [text[i]];
        OutputChar(text[i]);
      }
      assert text[..|text|] == text;
    }

    method Indent(curIndent: int)
      requires Idle()
      modifies `workLines, `resultLine, `outCol
      ensures workLines == old(workLines) && resultLine == Spaces(curIndent) && outCol == |resultLine|
    {
      while outCol < curIndent
        invariant workLines == old(workLines) && outCol == |resultLine|
        invariant outCol <= (if curIndent <= 0 then 0 else curIndent)
        invariant forall i :: 0 <= i < |resultLine| ==> resultLine[i] == ' '
        decreases curIndent - outCol
      {
        OutputChar(' ');
      }
      assert resultLine == Spaces(curIndent);
    }

    method GetCurIndent() returns (r: int)
      ensures r == Top(indentStack)
    {
      if indentStack != [] {
        r := indentStack[|indentStack| - 1];
      } else {
        r := 0;
      }
    }

    method ResetIndent(i: int)
      modifies `indentStack
      ensures indentStack == ResetTop(old(indentStack), i)
    {
      if indentStack != [] {
        indentStack := indentStack[|indentStack| - 1 := i];
      }
    }

    method IndentParen()
      modifies `indentStack
      ensures indentStack == old(indentStack) + [Top(old(indentStack)) + 2]
    {
      var currentIndent := if indentStack != [] then indentStack[|indentStack| - 1] else 0;
      indentStack := indentStack + [currentIndent + 2];
    }

    method RetireIndent()
      modifies `indentStack
      ensures indentStack == if old(indentStack) == [] then [] else old(indentStack)[..|old(indentStack)| - 1]
    {
      if indentStack != [] {
        indentStack := indentStack[..|indentStack| - 1];
      }
    }

    /** Form-name tracking at the head of the loop over a line. */
    method TrackFormName(ch: char)
      modifies `gettingFormName, `formName, `resetFormIndent
      ensures Carried() == TrackForm(old(Carried()), ch)
    {
      if gettingFormName > 0 {
        resetFormIndent := false;
        if gettingFormName == 1 && ch != ' ' {
          gettingFormName := 2;
          formName := formName + [ch];
        } else if gettingFormName == 2 && ch in {' ', '(', ')'} {
          gettingFormName := 0;
        } else {
          formName := formName + [ch];
        }
      }
    }

    /** The body of the loop for a character outside comments and string literals. */
    method CodeChar(ch: char, i: nat, shouldReset: bool, lineIndent: int) returns (lineIndent': int)
      requires shouldReset == ShouldReset(Carried(), ch) && ch != '\'' && ch != '"'
      modifies `parenLevel, `gettingFormName, `formName, `resetFormIndent, `indentStack
      ensures var k := StepChar(startParenLevel, Cursor(old(Carried()), lineIndent, CODE, 0, 0), i, ch);
              Carried() == k.carry && lineIndent' == k.lineIndent
    {
      lineIndent' := lineIndent;
      if ch == '(' {
        parenLevel := parenLevel + 1;
        if shouldReset {
          ResetIndent(lineIndent + i);
          resetFormIndent := true;
        }
        IndentParen();
        formName := [];
        gettingFormName := 1;
      } else if ch == ')' {
        var diff := (if |indentStack| > 0 then indentStack[|indentStack| - 1] else 0)
                    - if |indentStack| > 1 then indentStack[|indentStack| - 2] else 0;
        RetireIndent();
        if parenLevel <= startParenLevel {
          lineIndent' := lineIndent - diff;
        }
        parenLevel := parenLevel - 1;
      } else if shouldReset {
        ResetIndent(lineIndent + i);
        resetFormIndent := true;
      }
    }

    /** Format one line and add it to the work lines; false is the decoding exception. */
    method OutputLine() returns (ok: bool)
      requires Idle() && '\n' !in line
      modifies this
      ensures ok == AllAscii(old(line))
      ensures ok ==> Idle() && Carried() == NextCarry(old(Carried()), Trim(old(line)))
      ensures ok ==>
              workLines == old(workLines) +
                [LineText(EndLine(old(Carried()), Trim(old(line))).lineIndent, Trim(old(line)))]
      ensures lines == old(lines) && result == old(result) && line == []
    {
      hide RunLine, TrimEnd, TrimStart, Normal, Clamp, Trimmed, AllAscii, Code, Comment, CommentAt, LineText;
      var lineIndent := GetCurIndent();
      startParenLevel := parenLevel;
      var startingIndentLen := |indentStack|;
      ghost var carry := Carried();

      if line == [] {
        OutputChar('\n');
        BlankLine(carry);
        return true;
      }

      var trimmed := TrimBoth(line);
      line := [];
      if trimmed.None? {
        return false;
      }
      var text := trimmed.value;
      var semis, semiOff, code, comment;
      lineIndent, semis, semiOff, code, comment := ScanLine(text, lineIndent);
      WriteLine(text, lineIndent, semis, semiOff, code, comment);
      ClampStack(startingIndentLen);
      ok := true;
    }

    /** The main loop, and the two statements after it that cut the comment off. */
    method ScanLine(text: string, indent: int)
      returns (lineIndent: int, semis: nat, semiOff: nat, code: string, comment: string)
      requires startParenLevel == parenLevel && indent == Top(indentStack)
      requires Trimmed(text) && AllAscii(text)
      modifies `parenLevel, `gettingFormName, `formName, `resetFormIndent, `indentStack
      ensures Carried() == EndLine(old(Carried()), text).carry && lineIndent == EndLine(old(Carried()), text).lineIndent
      ensures code == Code(text)
      ensures semis == 0 ==> Comment(text) == [] && comment == []
      ensures semis > 0 ==>
              semiOff + semis <= |text| && semiOff == CommentAt(text) && comment == text[semiOff + semis..] &&
                            forall j :: semiOff <= j < semiOff + semis ==> text[j] == ';'
    {
      hide RunLine, CommentFrom, Code, Comment, TrimEnd, Trimmed, Scanning;
      lineIndent := indent;
      var inString: Option<char> := None;
      var stringBs := false;
      semis, semiOff, comment, code := 0, 0, [], text;
      ghost var whole := EndLine(old(Carried()), text);
      StartScanning(old(Carried()), text);
      var i := 0;
      while i < |text|
        invariant 0 <= i <= |text| && comment == [] && code == text
        invariant Scanning(text, i, Cursor(Carried(), lineIndent, Quote(inString, stringBs), semis, semiOff))
        invariant whole == RunLine(startParenLevel,
                                   Cursor(Carried(), lineIndent, Quote(inString, stringBs), semis, semiOff), text, i)
      {
        var ch := text[i];
        NextChar(startParenLevel, Cursor(Carried(), lineIndent, Quote(inString, stringBs), semis, semiOff), text, i);
        TrackFormName(ch);
        var shouldReset := gettingFormName == 0 && formName == "if" && ch != ' ' && !resetFormIndent;
        if stringBs {
          stringBs := false;
          i := i + 1;
          continue;
        }
        if inString.Some? {
          if ch == '\\' {
            stringBs := true;
          }
          if ch == inString.value {
            inString := None;
          }
          i := i + 1;
          continue;
        }
        if semis == 0 {
          if ch in {'\'', '"'} {
            inString := Some(ch);
            i := i + 1;
            continue;
          }
          lineIndent := CodeChar(ch, i, shouldReset, lineIndent);
        }
        if ch == ';' {
          if semis == 0 {
            semiOff := i;
          }
          semis := semis + 1;
        } else if semis > 0 {
          comment := text[i..];
          var cut := TrimAsciiEnd(text[..semiOff]);
          code := cut.value;
          break;
        }
        i := i + 1;
      }
      EndScanning(startParenLevel, whole, text, i,
                  Cursor(Carried(), lineIndent, Quote(inString, stringBs), semis, semiOff));
      if semis + semiOff == |code| {
        var cut := TrimAsciiEnd(text[..semiOff]);
        code := cut.value;
      }
      var cut := TrimAsciiEnd(code);
      code := cut.value;
    }

    /** The part of the method that writes indentation, code and comment. */
    method WriteLine(text: string, lineIndent: int, semis: nat, semiOff: nat, code: string, comment: string)
      requires Idle() && Trimmed(text) && '\n' !in text && code == Code(text)
      requires semis == 0 ==> Comment(text) == [] && comment == []
      requires semis > 0 ==>
               semiOff + semis <= |text| && semiOff == CommentAt(text) && comment == text[semiOff + semis..] &&
                             forall j :: semiOff <= j < semiOff + semis ==> text[j] == ';'
      modifies `workLines, `resultLine, `outCol
      ensures Idle() && workLines == old(workLines) + [LineText(lineIndent, text)]
    {
      PartsWithin(text);
      hide Code, Comment, CommentAt, Trimmed, Spaces;
      if semis > 0 {
        Indent(lineIndent);
        CommentParts(text, semis, semiOff, comment);
        var marks := seq(semis, _ => ';');
        if code != [] {
          OutputText(code);
          OutputChar(' ');
          OutputChar(' ');
          Assembled(Spaces(lineIndent), code, marks, comment);
        } else {
          Appended(Spaces(lineIndent), marks, comment);
        }
        OutputText(marks);
        OutputText(comment);
      } else if code != [] {
        Indent(lineIndent);
        OutputText(code);
        assert code + Comment(text) == code;
      }
      assert resultLine == LineText(lineIndent, text);
      OutputChar('\n');
    }

    /** The next line is never more than one unit more indented than this one. */
    method ClampStack(startingIndentLen: nat)
      modifies `indentStack
      ensures indentStack == Clamp(old(indentStack), startingIndentLen)
    {
      if |indentStack| > startingIndentLen + 1 {
        ghost var stack := indentStack;
        var i := startingIndentLen + 1;
        while i < |indentStack|
          invariant startingIndentLen + 1 <= i <= |indentStack| == |stack|
          invariant forall j :: 0 <= j <= startingIndentLen ==> indentStack[j] == stack[j]
          invariant forall j :: startingIndentLen + 1 <= j < i ==> indentStack[j] == stack[startingIndentLen + 1]
          invariant forall j :: i <= j < |stack| ==> indentStack[j] == stack[j]
        {
          indentStack := indentStack[i := indentStack[startingIndentLen + 1]];
          i := i + 1;
        }
      }
    }

    /** Format all collected lines; false is the decoding exception. */
    method Finish() returns (ok: bool)
      requires Idle() && Carried() == START && workLines == [] && result == []
      requires '\n' !in line && forall l :: l in lines ==> '\n' !in l
      modifies this
      ensures var all := old(lines) + if old(line) == [] then [] else [old(line)];
              && ok == (forall i :: 0 <= i < |all| ==> AllAscii(all[i]))
              && (ok ==> result == FormatLines(START, TrimAll(all)))
    {
      hide FormatLines, TrimAll, Trim, EndLine, NextCarry, LineText, AllAscii;
      if line != [] {
        FinishLine();
      }
      ghost var all := lines;
      assert all == old(lines) + if old(line) == [] then [] else [old(line)];
      var source := lines;
      assert all[0..] == all;
      for i := 0 to |source|
        invariant Idle() && result == [] && lines == all && |workLines| == i
        invariant forall a :: 0 <= a < i ==> AllAscii(all[a])
        invariant FormatLines(START, TrimAll(all)) == workLines + FormatLines(Carried(), TrimAll(all[i..]))
      {
        line := source[i];
        FormatNext(Carried(), all, i, workLines);
        var fine := OutputLine();
        if !fine {
          assert !AllAscii(all[i]);
          return false;
        }
      }
      assert all[|all|..] == [];
      FormatNone(Carried(), workLines);
      var work := workLines;
      for i := 0 to |work|
        invariant result == work[..i]
      {
        result := result + [work[i]];
      }
      ok := true;
    }
  }

  /** What the loop variables say about the line: the quote state is one reached from code, and the
      comment either starts later or has started with the semicolons counted so far. */
  ghost predicate Scanning(text: string, i: nat, k: Cursor)
    requires i <= |text|
  {
    && Proper(k.quote)
    && (k.semis > 0 ==> k.quote == CODE)
    && if k.semis == 0 then k.semiOff == 0 && CommentAt(text) == CommentFrom(text, i, k.quote)
       else CommentAt(text) == k.semiOff && k.semiOff + k.semis == i &&
            forall j :: k.semiOff <= j < i ==> text[j] == ';'
  }

  lemma StartScanning(c: Carry, text: string)
    ensures Scanning(text, 0, StartLine(c)) && EndLine(c, text) == RunLine(c.parenLevel, StartLine(c), text, 0)
  {
  }

  lemma NextChar(startLevel: int, k: Cursor, text: string, i: nat)
    requires i < |text| && Scanning(text, i, k)
    ensures Proper(k.quote)
    ensures var k' := Track(k, text[i]);
            if k.semis > 0 && text[i] != ';'
            then RunLine(startLevel, k, text, i) == k' && Scanning(text, i, k') && k.semiOff <= i
            else var next := StepChar(startLevel, k', i, text[i]);
                 RunLine(startLevel, k, text, i) == RunLine(startLevel, next, text, i + 1)
                   && Scanning(text, i + 1, next)
  {
  }

  /** What the scan found once the loop is over. */
  lemma EndScanning(startLevel: int, whole: Cursor, text: string, i: nat, k: Cursor)
    requires i <= |text| && Scanning(text, i, k) && Trimmed(text)
    requires if i == |text| then whole == RunLine(startLevel, k, text, i) else k.semis > 0
    ensures i == |text| ==> whole == k
    ensures k.semis == 0 ==> i == |text| ==> Comment(text) == [] && Code(text) == text && k.semiOff == 0
    ensures k.semis > 0 ==>
              && k.semiOff == CommentAt(text) && k.semiOff + k.semis == i && TrimEnd(text[..k.semiOff]) == Code(text)
              && forall j :: k.semiOff <= j < i ==> text[j] == ';'
    ensures TrimEnd(Code(text)) == Code(text) && |Code(text)| <= CommentAt(text)
  {
    LineParts(text);
    var code := Code(text);
    assert code + [] == code;
    TrimEndPad(code, []);
    if k.semis == 0 && i == |text| {
      assert text == code + [] + [];
    }
  }

  lemma TrimmedLine(line: string)
    requires AllAscii(line) && '\n' !in line
    ensures AllAscii(TrimEnd(line)) && Trim(line) == TrimStart(TrimEnd(line))
    ensures Trimmed(Trim(line)) && AllAscii(Trim(line)) && '\n' !in Trim(line)
  {
    TrimIsTrimmed(line);
    var e := TrimEnd(line);
    assert forall c :: c in e ==> c in line;
  }

  lemma Assembled(indent: string, code: string, marks: string, comment: string)
    ensures indent + code + [' '] + [' '] + marks + comment == indent + (code + "  " + (marks + comment))
  {
    assert code + "  " + (marks + comment) == code + [' '] + [' '] + marks + comment;
  }

  lemma Appended(indent: string, marks: string, comment: string)
    ensures indent + marks + comment == indent + ([] + (marks + comment))
  {
  }

  lemma PartsWithin(text: string)
    requires '\n' !in text
    ensures '\n' !in Code(text) && '\n' !in Comment(text)
  {
    assert '\n' !in text[..CommentAt(text)];
  }

  lemma CommentParts(text: string, semis: nat, semiOff: nat, comment: string)
    requires semiOff + semis <= |text| && semiOff == CommentAt(text) && comment == text[semiOff + semis..]
    requires forall j :: semiOff <= j < semiOff + semis ==> text[j] == ';'
    ensures Comment(text) == seq(semis, _ => ';') + comment
  {
  }

  lemma FormatNone(c: Carry, done: seq<string>)
    ensures done + FormatLines(c, TrimAll([])) == done
  {
  }

  lemma FormatNext(c: Carry, all: seq<string>, i: nat, done: seq<string>)
    requires i < |all|
    ensures done + FormatLines(c, TrimAll(all[i..])) ==
            (done + [LineText(EndLine(c, Trim(all[i])).lineIndent, Trim(all[i]))])
              + FormatLines(NextCarry(c, Trim(all[i])), TrimAll(all[i + 1..]))
  {
    hide EndLine, NextCarry, LineText, Trim;
    var rest := TrimAll(all[i..]);
    assert all[i..][1..] == all[i + 1..];
    assert rest[0] == Trim(all[i]) && rest[1..] == TrimAll(all[i + 1..]);
  }

  lemma BlankLine(c: Carry)
    ensures Trim("") == "" && NextCarry(c, "") == c && LineText(EndLine(c, "").lineIndent, "") == "" && AllAscii("")
  {
    EmptyIsNormal();
    hide Normal, Trimmed, AllAscii;
    assert TrimEnd("") == "" && TrimStart("") == "";
    assert EndLine(c, "") == StartLine(c);
    EmptyAscii();
  }

  lemma EmptyAscii()
    ensures AllAscii("")
  {
  }

  /** What `main` writes back for one file. */
  method FormatFile(filedata: string) returns (formatted: Option<string>)
    ensures formatted == Format(filedata)
  {
    hide FormatLines, Trim, JoinLines;
    var formatter := new Formatter();
    for i := 0 to |filedata|
      invariant SplitLines(filedata, []) == formatter.lines + SplitLines(filedata[i..], formatter.line)
      invariant '\n' !in formatter.line && forall l :: l in formatter.lines ==> '\n' !in l
      invariant formatter.Idle() && formatter.Carried() == START && formatter.workLines == [] && formatter.result == []
    {
      assert filedata[i..][1..] == filedata[i + 1..];
      formatter.RunChar(filedata[i]);
    }
    ghost var all := formatter.lines + if formatter.line == [] then [] else [formatter.line];
    assert filedata[|filedata|..] == [];
    assert all == SplitLines(filedata, []);
    var ok := formatter.Finish();
    LinesAscii(filedata, []);
    if !ok { return None; }
    if formatter.result == [] {
      formatted := Some("\n");
    } else {
      formatted := Some(JoinLines(formatter.result));
    }
  }

  /** A file is ASCII exactly when its lines are. */
  lemma {:induction false} LinesAscii(text: string, line: string)
    ensures (forall i :: 0 <= i < |SplitLines(text, line)| ==> AllAscii(SplitLines(text, line)[i])) <==>
            AllAscii(text) && AllAscii(line)
    decreases |text|
  {
    if text != [] {
      var parts := SplitLines(text, line);
      AsciiConcat([text[0]], text[1..]);
      assert [text[0]] + text[1..] == text;
      if text[0] == '\n' {
        LinesAscii(text[1..], []);
        assert parts[0] == line && parts[1..] == SplitLines(text[1..], []);
        assert forall i :: 0 <= i < |parts[1..]| ==> parts[1..][i] == parts[i + 1];
        assert forall i :: 1 <= i < |parts| ==> parts[i] == parts[1..][i - 1];
      } else {
        LinesAscii(text[1..], line + [text[0]]);
        AsciiConcat(line, [text[0]]);
        assert parts == SplitLines(text[1..], line + [text[0]]);
      }
    } else if line != [] {
      assert SplitLines(text, line)[0] == line;
    }
  }

  lemma AsciiConcat(s: string, t: string)
    ensures AllAscii(s + t) <==> AllAscii(s) && AllAscii(t)
  {
    assert forall i :: 0 <= i < |s| ==> (s + t)[i] == s[i];
    assert forall i :: 0 <= i < |t| ==> (s + t)[|s| + i] == t[i];
  }
}
