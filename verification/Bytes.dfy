/** What the other modules share: results, byte strings, 32-byte hashes, Python slicing of byte arrays, and
    hexadecimal text. */
module Bytes {

  newtype byte = x: int | 0 <= x < 256

  type Blob = seq<byte>

  type Bytes32 = b: Blob | |b| == 32 witness seq(32, _ => 0)

  datatype Option<+T> = None | Some(value: T)

  datatype Result<+T, +E> = Ok(value: T) | Err(error: E)

  lemma Member<T>(s: set<T>) returns (x: T)
    requires s != {}
    ensures x in s
  {
    x :| x in s;
  }

  // ---------------------------------------------------------------- slices

  /** Where Python places slice bound `i` in a sequence of length `n`: negative
      bounds count from the end, and everything is clamped to 0..n. */
  function SliceBound(i: int, n: nat): (k: nat)
    ensures k <= n
    ensures 0 <= i <= n ==> k == i
  {
    if i < 0 then (if i + n < 0 then 0 else i + n) else if i > n then n else i
  }

  /** `buf[lo:hi] = x` on a Python bytearray. */
  function SliceAssign(buf: Blob, lo: int, hi: int, x: Blob): (r: Blob)
    ensures 0 <= lo <= hi <= |buf| && |x| == hi - lo ==> |r| == |buf| && r[lo..hi] == x
    ensures 0 <= lo == |buf| <= hi ==> r == buf + x
  {
    var i := SliceBound(lo, |buf|);
    var j := SliceBound(hi, |buf|);
    buf[..i] + x + buf[if j < i then i else j..]
  }

  /** The height lookup: 32 bytes at offset 32 * height. */
  function HashAt(buf: Blob, height: nat): (h: Bytes32)
    requires 32 * height + 32 <= |buf|
  {
    buf[32 * height..32 * height + 32]
  }

  /** Writing one 32-byte slot inside the buffer leaves every other slot alone. */
  lemma SlotFrame(buf: Blob, slot: nat, x: Bytes32, other: nat)
    requires 32 * slot + 32 <= |buf| && 32 * other + 32 <= |buf|
    ensures var r := SliceAssign(buf, 32 * slot, 32 * slot + 32, x);
            |r| == |buf| && HashAt(r, other) == if other == slot then x else HashAt(buf, other)
  {
  }

  /** Appending one slot leaves the existing slots alone. */
  lemma AppendSlotFrame(buf: Blob, slots: nat, x: Bytes32, other: nat)
    requires |buf| == 32 * slots && other <= slots
    ensures |buf + x| == 32 * slots + 32
    ensures HashAt(buf + x, other) == if other == slots then x else HashAt(buf, other)
  {
  }

  // ---------------------------------------------------------------- hex text

  predicate IsHexDigit(c: char) {
    '0' <= c <= '9' || 'a' <= c <= 'f'
  }

  /** Lower-case hexadecimal text of whole bytes, as `bytes.hex()` writes it. */
  predicate IsHex(s: string) {
    |s| % 2 == 0 && forall i :: 0 <= i < |s| ==> IsHexDigit(s[i])
  }

  /** How the v1 database stores a 32-byte hash. */
  type Hex32 = s: string | |s| == 64 && IsHex(s) witness seq(64, _ => '0')

  function DigitValue(c: char): (v: int)
    requires IsHexDigit(c)
    ensures 0 <= v < 16
  {
    if c <= '9' then c as int - '0' as int else c as int - 'a' as int + 10
  }

  function Digit(v: int): (c: char)
    requires 0 <= v < 16
    ensures IsHexDigit(c) && DigitValue(c) == v
  {
    if v < 10 then ('0' as int + v) as char else ('a' as int + v - 10) as char
  }

  /** `bytes.fromhex` / SQL `unhex` on lower-case hexadecimal text. */
  function Unhex(s: string): (b: Blob)
    requires IsHex(s)
    ensures |b| == |s| / 2
  {
    if s == [] then [] else
      [(16 * DigitValue(s[0]) + DigitValue(s[1])) as byte] + Unhex(s[2..])
  }

  /** `bytes.hex()`. */
  function Hex(b: Blob): (s: string)
    ensures IsHex(s) && |s| == 2 * |b|
  {
    if b == [] then [] else
      [Digit(b[0] as int / 16), Digit(b[0] as int % 16)] + Hex(b[1..])
  }

  lemma {:induction false} HexUnhex(s: string)
    requires IsHex(s)
    ensures Hex(Unhex(s)) == s
  {
    if s != [] {
      HexUnhex(s[2..]);
      var b := Unhex(s);
      assert b[1..] == Unhex(s[2..]);
      DigitsOf(s[0], s[1]);
      assert s == [s[0], s[1]] + s[2..];
    }
  }

  lemma DigitsOf(high: char, low: char)
    requires IsHexDigit(high) && IsHexDigit(low)
    ensures var x := 16 * DigitValue(high) + DigitValue(low); Digit(x / 16) == high && Digit(x % 16) == low
  {
  }

  lemma {:induction false} UnhexHex(b: Blob)
    ensures Unhex(Hex(b)) == b
  {
    if b != [] {
      UnhexHex(b[1..]);
      assert Hex(b)[2..] == Hex(b[1..]);
      assert b == [b[0]] + b[1..];
    }
  }

  /** Two texts that decode to the same bytes are the same text. */
  lemma UnhexInjective(s: string, t: string)
    requires IsHex(s) && IsHex(t) && Unhex(s) == Unhex(t)
    ensures s == t
  {
    HexUnhex(s);
    HexUnhex(t);
  }

  const NUMERALS := "0123456789abcdef"

  /** Each byte is written as two numerals, the high one first. */
  lemma {:induction false} HexNumerals(b: Blob, i: nat) returns (high: nat, low: nat)
    requires i < |b|
    ensures high < 16 && low < 16 && b[i] as int == 16 * high + low
    ensures Hex(b)[2 * i] == NUMERALS[high] && Hex(b)[2 * i + 1] == NUMERALS[low]
  {
    if i == 0 {
      high, low := b[0] as int / 16, b[0] as int % 16;
    } else {
      high, low := HexNumerals(b[1..], i - 1);
    }
  }
}
