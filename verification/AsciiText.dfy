/** White space and trimming of ASCII text, as Python's `str` sees it. */
module AsciiText {

  /** `str.isspace` on an ASCII character. */
  predicate IsSpace(c: char) {
    '\t' <= c <= '\r' || 28 as char <= c <= ' '
  }

  predicate IsAscii(c: char) {
    c < 128 as char
  }

  predicate AllAscii(s: string) {
    forall i :: 0 <= i < |s| ==> IsAscii(s[i])
  }

  ghost predicate AllSpace(s: string) {
    forall i :: 0 <= i < |s| ==> IsSpace(s[i])
  }

  function TrimEnd(s: string): (r: string)
    ensures r <= s && AllSpace(s[|r|..])
    ensures r != [] ==> !IsSpace(r[|r| - 1])
  {
    if s != [] && IsSpace(s[|s| - 1]) then TrimEnd(s[..|s| - 1]) else s
  }

  function TrimStart(s: string): (r: string)
    ensures |r| <= |s| && r == s[|s| - |r|..] && AllSpace(s[..|s| - |r|])
    ensures r != [] ==> !IsSpace(r[0])
  {
    if s != [] && IsSpace(s[0]) then
      var r := TrimStart(s[1..]);
      assert s[..|s| - |r|] == [s[0]] + s[1..][..|s| - 1 - |r|];
      r
    else s
  }

  function Trim(s: string): string {
    TrimStart(TrimEnd(s))
  }

  /** Neither end is white space. */
  ghost predicate Trimmed(s: string) {
    s != [] ==> !IsSpace(s[0]) && !IsSpace(s[|s| - 1])
  }

  lemma {:induction false} TrimEndPad(body: string, pad: string)
    requires AllSpace(pad) && (body != [] ==> !IsSpace(body[|body| - 1]))
    ensures TrimEnd(body + pad) == body
    decreases |pad|
  {
    if pad == [] {
      assert body + pad == body;
    } else {
      var n := |pad| - 1;
      assert (body + pad)[..|body + pad| - 1] == body + pad[..n];
      TrimEndPad(body, pad[..n]);
    }
  }

  lemma {:induction false} TrimStartPad(pad: string, body: string)
    requires AllSpace(pad) && (body != [] ==> !IsSpace(body[0]))
    ensures TrimStart(pad + body) == body
    decreases |pad|
  {
    if pad == [] {
      assert pad + body == body;
    } else {
      assert (pad + body)[1..] == pad[1..] + body;
      TrimStartPad(pad[1..], body);
    }
  }

  lemma TrimIsTrimmed(s: string)
    ensures Trimmed(Trim(s))
  {
    var e := TrimEnd(s);
    var r := TrimStart(e);
    if r != [] {
      assert r[|r| - 1] == e[|e| - 1];
    }
  }

  lemma {:induction false} TrimPadded(pad: string, body: string)
    requires AllSpace(pad) && Trimmed(body)
    ensures Trim(if body == [] then [] else pad + body) == body
  {
    if body != [] {
      assert pad + body + [] == pad + body;
      TrimEndPad(pad + body, []);
      TrimStartPad(pad, body);
    }
  }
}
