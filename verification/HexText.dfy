/** Hexadecimal text, as the routines of string.c write and read it. */
module HexText {

  /** BI_RM */
  const DIGITS: string := "0123456789abcdef" + "ghijklmnopqrstuvwxyz"

  type Nibble = bv4

  function HexDigit(v: Nibble): char {
    DIGITS[v as int]
  }

  /** One digit a nibble. */
  function Text(n: seq<Nibble>): (s: string)
    ensures |s| == |n|
  {
    seq(|n|, i requires 0 <= i < |n| => HexDigit(n[i]))
  }

  function High(v: bv8): Nibble { (v >> 4) as Nibble }
  function Low(v: bv8): Nibble { (v & 0x0F) as Nibble }
  function Join(a: Nibble, b: Nibble): bv8 { ((a as bv8) << 4) | (b as bv8) }

  /** Two nibbles a byte, the high one first. */
  function Nibbles(x: seq<bv8>): (n: seq<Nibble>)
    ensures |n| == 2 * |x|
  {
    if x == [] then [] else [High(x[0]), Low(x[0])] + Nibbles(x[1..])
  }

  /** The lower-case hexadecimal text of some bytes. */
  function HexOf(x: seq<bv8>): (s: string)
    ensures |s| == 2 * |x|
  {
    Text(Nibbles(x))
  }

  predicate IsHex(c: char) { '0' <= c <= '9' || 'a' <= c <= 'f' || 'A' <= c <= 'F' }

  function DigitValue(c: char): (v: int)
    requires IsHex(c)
    ensures 0 <= v < 16
  {
    if '0' <= c <= '9' then c as int - '0' as int
    else if 'a' <= c <= 'f' then c as int - 'a' as int + 10
    else c as int - 'A' as int + 10
  }

  /** strtol(buf, NULL, 16) on one character: what is not a digit gives 0. */
  function HexValue(c: char): Nibble {
    if IsHex(c) then DigitValue(c) as Nibble else 0
  }

  const UPPER: string := "0123456789ABCDEF"
  const LOWER: string := "0123456789abcdef"

  lemma UpperDigit(v: nat)
    requires v < 16
    ensures IsHex(UPPER[v]) && DigitValue(UPPER[v]) == v
  {
    assert UPPER[v] as int == if v < 10 then '0' as int + v else 'A' as int + v - 10;
  }

  lemma LowerDigit(v: nat)
    requires v < 16
    ensures IsHex(LOWER[v]) && DigitValue(LOWER[v]) == v
  {
    assert LOWER[v] as int == if v < 10 then '0' as int + v else 'a' as int + v - 10;
  }

  /** c is the digit for v, in upper or in lower case. */
  predicate DigitFor(c: char, v: nat)
    requires v < 16
  {
    c == "0123456789ABCDEF"[v] || c == "0123456789abcdef"[v]
  }

  lemma DigitForValue(c: char, v: nat)
    requires v < 16 && DigitFor(c, v)
    ensures IsHex(c) && DigitValue(c) == v
  {
    UpperDigit(v);
    LowerDigit(v);
  }

  lemma DigitOfValue(c: char)
    requires IsHex(c)
    ensures DigitFor(c, DigitValue(c))
  {
    UpperDigit(DigitValue(c));
    LowerDigit(DigitValue(c));
  }

  /** Only the sixteen digits are digits, in either case. */
  lemma IsHexIff(c: char)
    ensures IsHex(c) <==> exists v: nat :: v < 16 && DigitFor(c, v)
  {
    if IsHex(c) { DigitOfValue(c); }
    forall v: nat | v < 16 && DigitFor(c, v) ensures IsHex(c) { DigitForValue(c, v); }
  }

  lemma LowerInTable(c: char)
    requires c in "0123456789abcdef"
    ensures IsLowerHex(c)
  {
    var v :| 0 <= v < 16 && LOWER[v] == c;
    assert LOWER[v] as int == if v < 10 then '0' as int + v else 'a' as int + v - 10;
  }

  predicate IsLowerHex(c: char) {
    '0' <= c <= '9' || 'a' <= c <= 'f'
  }

  lemma HexDigitCode(v: Nibble)
    ensures HexDigit(v) as int == if v < 10 then '0' as int + v as int else 'a' as int + v as int - 10
  {
  }

  lemma HexValueOfDigit(v: Nibble)
    ensures HexValue(HexDigit(v)) == v && HexDigit(v) != '\0'
  {
    HexDigitCode(v);
  }

  lemma HexDigitOfValue(c: char)
    requires IsLowerHex(c)
    ensures HexDigit(HexValue(c)) == c
  {
    HexDigitCode(HexValue(c));
  }

  function Unhex(h: string): seq<bv8> {
    if |h| < 2 then [] else [Join(HexValue(h[0]), HexValue(h[1]))] + Unhex(h[2..])
  }

  lemma HighLowOfJoin(a: Nibble, b: Nibble)
    ensures High(Join(a, b)) == a && Low(Join(a, b)) == b
  {
  }

  lemma UnhexNibbles(h: string)
    requires |h| >= 2
    ensures Nibbles(Unhex(h)) == [HexValue(h[0]), HexValue(h[1])] + Nibbles(Unhex(h[2..]))
  {
    HighLowOfJoin(HexValue(h[0]), HexValue(h[1]));
    assert Unhex(h)[1..] == Unhex(h[2..]);
  }

  /** The bytes of a text have the values of its digits as nibbles. */
  lemma {:induction false} NibblesOfUnhex(h: string, i: nat)
    requires |h| % 2 == 0 && i < |h|
    ensures i < |Nibbles(Unhex(h))| && Nibbles(Unhex(h))[i] == HexValue(h[i])
  {
    UnhexNibbles(h);
    if i >= 2 { NibblesOfUnhex(h[2..], i - 2); }
  }

  lemma {:induction false} UnhexLength(h: string)
    requires |h| % 2 == 0
    ensures 2 * |Unhex(h)| == |h|
  {
    if h == "" {
    } else {
      UnhexLength(h[2..]);
    }
  }

  /** Every text of lower-case digits, two a byte, is the text of some bytes. */
  lemma HexOfUnhex(h: string)
    requires |h| % 2 == 0 && forall i :: 0 <= i < |h| ==> IsLowerHex(h[i])
    ensures HexOf(Unhex(h)) == h
  {
    UnhexLength(h);
    forall i | 0 <= i < |h| ensures HexOf(Unhex(h))[i] == h[i] {
      NibblesOfUnhex(h, i);
      HexDigitOfValue(h[i]);
    }
  }
}
