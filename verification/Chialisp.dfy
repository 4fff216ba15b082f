/** The Chialisp formatter as functions: what one line is made of, and how state is carried between lines.
    A byte is modelled by the character with the same code. */
module Chialisp {
  import opened AsciiText
  import opened Bytes

  // ------------------------------------------------------------ code and comment of a line

  /** Where in the line the scanner is: inside which quotes, and just after a backslash or not. */
  datatype Quote = Quote(open: Option<char>, escaped: bool)

  const CODE := Quote(None, false)

  function AfterChar(q: Quote, ch: char): Quote {
    if q.escaped then q.(escaped := false)
    else if q.open.Some? then Quote(if ch == q.open.value then None else q.open, ch == '\\')
    else if ch == '\'' || ch == '"' then Quote(Some(ch), false)
    else q
  }

  predicate StartsComment(q: Quote, ch: char) {
    q == CODE && ch == ';'
  }

  /** The index of the first semicolon outside a string literal, or the length of the line. */
  function CommentFrom(line: string, i: nat, q: Quote): (k: nat)
    requires i <= |line|
    ensures i <= k <= |line|
    ensures k < |line| ==> line[k] == ';'
    decreases |line| - i
  {
    if i == |line| || StartsComment(q, line[i]) then i
    else CommentFrom(line, i + 1, AfterChar(q, line[i]))
  }

  function CommentAt(line: string): (k: nat)
    ensures k <= |line|
  {
    CommentFrom(line, 0, CODE)
  }

  /** The code of a line, without the white space before its comment. */
  function Code(line: string): (code: string)
    ensures |code| <= CommentAt(line)
  {
    TrimEnd(line[..CommentAt(line)])
  }

  /** The comment of a line, with its semicolons. */
  function Comment(line: string): string {
    line[CommentAt(line)..]
  }

  /** The comment normal form of a trimmed line: two spaces between code and comment. */
  function Normal(line: string): string {
    if Code(line) == [] || Comment(line) == [] then Code(line) + Comment(line)
    else Code(line) + "  " + Comment(line)
  }

  /** The quote state after a stretch of text that starts no comment. */
  function AfterText(s: string, q: Quote): Quote {
    if s == [] then q else AfterText(s[1..], AfterChar(q, s[0]))
  }

  ghost predicate CommentFree(s: string, q: Quote)
    decreases |s|
  {
    s != [] ==> !StartsComment(q, s[0]) && CommentFree(s[1..], AfterChar(q, s[0]))
  }

  /** What may stand between two quote marks q: characters other than q and the backslash, and pairs of a
      backslash and any character. */
  ghost predicate Quoted(body: string, q: char)
    decreases |body|
  {
    || body == []
    || (body[0] == '\\' && |body| >= 2 && Quoted(body[2..], q))
    || (body[0] != '\\' && body[0] != q && Quoted(body[1..], q))
  }

  lemma {:induction false} InsideQuotes(body: string, q: char, i: nat)
    requires q != '\\' && Quoted(body, q) && i <= |body|
    ensures AfterText(body[..i], Quote(Some(q), false)).open == Some(q)
    ensures AfterText(body, Quote(Some(q), false)) == Quote(Some(q), false)
    ensures CommentFree(body, Quote(Some(q), false))
    decreases |body|
  {
    var start := Quote(Some(q), false);
    if body == [] {
    } else if body[0] == '\\' && |body| >= 2 && Quoted(body[2..], q) {
      InsideQuotes(body[2..], q, if i < 2 then 0 else i - 2);
      assert body[1..][1..] == body[2..];
      if i >= 2 {
        assert body[..i][1..][1..] == body[2..][..i - 2];
      } else if i == 1 {
        assert body[..1][1..] == [];
      }
    } else {
      InsideQuotes(body[1..], q, if i < 1 then 0 else i - 1);
      if i >= 1 {
        assert body[..i][1..] == body[1..][..i - 1];
      }
    }
  }

  /** A string literal is skipped as a whole: no comment starts in it, every position in it is inside the literal,
      and after it the code goes on. */
  lemma {:induction false} LiteralIsSkipped(body: string, q: char, i: nat)
    requires (q == '\'' || q == '"') && Quoted(body, q) && i <= |body|
    ensures var literal := [q] + body + [q];
            && AfterText(literal, CODE) == CODE && CommentFree(literal, CODE)
            && AfterText(literal[..i + 1], CODE).open == Some(q)
  {
    var literal := [q] + body + [q];
    InsideQuotes(body, q, i);
    var open := Quote(Some(q), false);
    assert literal[1..] == body + [q];
    FreeConcat(body, [q], open);
    assert [q][1..] == [];
    assert AfterText([q], open) == AfterText([], CODE);
    assert CommentFree([q], open);
    assert literal[..i + 1][1..] == body[..i];
  }

  /** Text without quote marks and semicolons is code. */
  lemma {:induction false} PlainIsCode(s: string)
    requires forall i :: 0 <= i < |s| ==> s[i] != '\'' && s[i] != '"' && s[i] != ';'
    ensures AfterText(s, CODE) == CODE && CommentFree(s, CODE)
    decreases |s|
  {
    if s != [] {
      PlainIsCode(s[1..]);
    }
  }

  /** Scanning past comment-free text. */
  lemma {:induction false} CommentPast(line: string, i: nat, s: string, q: Quote)
    requires i + |s| <= |line| && line[i..i + |s|] == s && CommentFree(s, q)
    ensures CommentFrom(line, i, q) == CommentFrom(line, i + |s|, AfterText(s, q))
    decreases |s|
  {
    if s != [] {
      assert line[i] == s[0];
      assert line[i + 1..i + |s|] == s[1..];
      CommentPast(line, i + 1, s[1..], AfterChar(q, s[0]));
    }
  }

  /** What CommentFrom skips is comment free. */
  lemma {:induction false} SkippedIsFree(line: string, i: nat, q: Quote)
    requires i <= |line|
    ensures var k := CommentFrom(line, i, q);
            CommentFree(line[i..k], q) && (k < |line| ==> AfterText(line[i..k], q) == CODE)
    decreases |line| - i
  {
    if i < |line| && !StartsComment(q, line[i]) {
      SkippedIsFree(line, i + 1, AfterChar(q, line[i]));
      var k := CommentFrom(line, i, q);
      assert line[i..k][1..] == line[i + 1..k];
    }
  }

  lemma {:induction false} FreeConcat(s: string, t: string, q: Quote)
    ensures CommentFree(s + t, q) <==> CommentFree(s, q) && CommentFree(t, AfterText(s, q))
    ensures AfterText(s + t, q) == AfterText(t, AfterText(s, q))
    decreases |s|
  {
    if s == [] {
      assert s + t == t;
    } else {
      assert (s + t)[1..] == s[1..] + t;
      FreeConcat(s[1..], t, AfterChar(q, s[0]));
    }
  }

  /** White space cannot close a string literal. */
  lemma {:induction false} SpaceKeepsQuote(s: string, q: Quote)
    requires AllSpace(s) && (q.open.Some? ==> !IsSpace(q.open.value))
    ensures AfterText(s, q) == CODE ==> q.open.None?
    ensures q == CODE ==> AfterText(s, q) == CODE && CommentFree(s, q)
    decreases |s|
  {
    if s != [] {
      SpaceKeepsQuote(s[1..], AfterChar(q, s[0]));
    }
  }

  /** A quote state reached from code: an escape only inside quotes, and only the two quote marks open. */
  ghost predicate Proper(q: Quote) {
    (q.escaped ==> q.open.Some?) && (q.open.Some? ==> q.open.value == '\'' || q.open.value == '"')
  }

  lemma {:induction false} AfterTextProper(s: string, q: Quote)
    requires Proper(q)
    ensures Proper(AfterText(s, q))
    decreases |s|
  {
    if s != [] {
      AfterTextProper(s[1..], AfterChar(q, s[0]));
    }
  }

  /** The code of a commented line ends outside every string literal. */
  lemma CodeEndsOutside(line: string)
    ensures CommentFree(Code(line), CODE)
    ensures CommentAt(line) < |line| ==> AfterText(Code(line), CODE) == CODE
  {
    var k := CommentAt(line);
    var code, gap := Code(line), line[|Code(line)|..k];
    SkippedIsFree(line, 0, CODE);
    assert line[0..k] == line[..k] == code + gap;
    FreeConcat(code, gap, CODE);
    AfterTextProper(code, CODE);
    assert AllSpace(gap) by { assert gap == line[..k][|code|..]; }
    SpaceKeepsQuote(gap, AfterText(code, CODE));
  }

  /** A trimmed line is its code, white space, and its comment; the normal form changes only the white space. */
  lemma LineParts(line: string)
    requires Trimmed(line)
    ensures var gap := line[|Code(line)|..CommentAt(line)];
            && line == Code(line) + gap + Comment(line)
            && AllSpace(gap)
            && (Comment(line) == [] ==> gap == [])
            && (Code(line) == [] ==> gap == [])
    ensures Comment(line) != [] ==> Comment(line)[0] == ';'
    ensures Trimmed(Normal(line))
  {
    hide TrimEnd, CommentFrom;
    var k := CommentAt(line);
    var code := Code(line);
    var gap := line[|code|..k];
    assert gap == line[..k][|code|..];
    CodeOnly(line);
    NormalTrimmed(line);
  }

  lemma CodeOnly(line: string)
    requires Trimmed(line)
    ensures Comment(line) == [] ==> Code(line) == line
    ensures Code(line) == [] ==> CommentAt(line) == 0
  {
    var k := CommentAt(line);
    if Comment(line) == [] {
      assert line[..k] == line == line + [];
      TrimEndPad(line, []);
    }
    assert AllSpace(line[..k][|Code(line)|..]);
  }

  lemma NormalTrimmed(line: string)
    requires Trimmed(line)
    ensures Trimmed(Normal(line))
  {
    hide TrimEnd, CommentFrom;
    var code, comment := Code(line), Comment(line);
    if code != [] {
      assert code[0] == line[0];
    }
    if comment != [] {
      assert comment[|comment| - 1] == line[|line| - 1];
    }
  }

  lemma NormalParts(line: string)
    requires Trimmed(line)
    ensures Code(Normal(line)) == Code(line) && Comment(Normal(line)) == Comment(line)
  {
    LineParts(line);
    CodeEndsOutside(line);
    var code, comment := Code(line), Comment(line);
    if comment == [] {
      assert Normal(line) == code + comment == line;
    } else {
      var pad := if code == [] then "" else "  ";
      assert Normal(line) == code + pad + comment;
      SpaceKeepsQuote(pad, CODE);
      FreeConcat(code, pad, CODE);
      Recombined(code, pad, comment);
    }
  }

  lemma Recombined(code: string, pad: string, comment: string)
    requires CommentFree(code + pad, CODE) && AfterText(code + pad, CODE) == CODE && AllSpace(pad)
    requires comment != [] && comment[0] == ';' && (code != [] ==> !IsSpace(code[|code| - 1]))
    ensures Code(code + pad + comment) == code && Comment(code + pad + comment) == comment
  {
    hide CommentFree, AfterText;
    var head := code + pad;
    var n := head + comment;
    assert n[0..0 + |head|] == head;
    CommentPast(n, 0, head, CODE);
    assert n[|head|] == ';';
    assert CommentAt(n) == |head|;
    assert n[..|head|] == head && n[|head|..] == comment;
    TrimEndPad(code, pad);
  }

  /** The comment normal form is idempotent. */
  lemma NormalIdempotent(line: string)
    requires Trimmed(line)
    ensures Normal(Normal(line)) == Normal(line)
  {
    NormalParts(line);
  }
}
