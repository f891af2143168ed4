/** url_encode, sqa_encode and url_decode of string.c. Characters are bytes. */
module Percent {
  import opened Sequences
  import opened HexText

  type Byte = c: char | c as int < 256 witness 'a'
  type Bytes = seq<Byte>

  /** url_encode escapes the blank, the line feed and the plus sign. */
  function UrlEscape(c: Byte): (s: Bytes)
    ensures s == [c] || (|s| == 3 && s[0] == '%')
  {
    if c == ' ' then "%20" else if c == '\n' then "%0a" else if c == '+' then "%2B" else [c]
  }

  /** sqa_encode escapes the ampersand, the percent sign and the angle brackets. */
  function SqaEscape(c: Byte): (s: Bytes)
    ensures s == [c] || (|s| == 3 && s[0] == '%')
  {
    if c == '&' then "%26" else if c == '%' then "%25" else if c == '<' then "%3C" else if c == '>' then "%3E" else [c]
  }

  function UrlEncode(s: Bytes): Bytes {
    if s == [] then [] else UrlEscape(s[0]) + UrlEncode(s[1..])
  }

  function SqaEncode(s: Bytes): Bytes {
    if s == [] then [] else SqaEscape(s[0]) + SqaEncode(s[1..])
  }

  predicate Blank(c: Byte) { c in {' ', '\t', '\n', '\r', 11 as char, 12 as char} }

  function SkipBlanks(t: Bytes): (u: Bytes)
    ensures u == [] || !Blank(u[0])
  {
    if t != [] && Blank(t[0]) then SkipBlanks(t[1..]) else t
  }

  /** A number of at most two characters, by its lowest byte: a sign and a digit, two digits, or one
      digit before something else. The prefix 0x takes both characters and leaves no digit. */
  function Number(u: Bytes): (r: Bytes)
    ensures |r| <= 1
  {
    if u == [] then []
    else if u[0] == '+' || u[0] == '-' then
      if |u| > 1 && IsHex(u[1]) then
        [(if u[0] == '-' && DigitValue(u[1]) > 0 then 256 - DigitValue(u[1]) else DigitValue(u[1])) as char]
      else []
    else if !IsHex(u[0]) then []
    else if |u| > 1 && u[0] == '0' && (u[1] == 'x' || u[1] == 'X') then []
    else if |u| > 1 && IsHex(u[1]) then [(16 * DigitValue(u[0]) + DigitValue(u[1])) as char]
    else [DigitValue(u[0]) as char]
  }

  /** sscanf(t, "%2x", ..), where t is what stands behind a percent sign, up to the terminator:
      nothing, or the number found. */
  function Scan(t: Bytes): (r: Bytes)
    ensures |r| <= 1
  {
    Number(SkipBlanks(t))
  }

  /** What the first n characters of a text decode to. A percent sign takes three characters, whether
      or not they convert; the scan looks ahead as far as it likes. */
  function UrlDecode(s: Bytes, n: nat): Bytes
    requires n <= |s|
    decreases n
  {
    if n == 0 then []
    else if s[0] == '+' then [' '] + UrlDecode(s[1..], n - 1)
    else if s[0] == '%' then Scan(s[1..]) + (if n < 3 then [] else UrlDecode(s[3..], n - 3))
    else [s[0]] + UrlDecode(s[1..], n - 1)
  }

  /** A whole text, decoded. */
  function Decoded(s: Bytes): Bytes { UrlDecode(s, |s|) }

  // ----- the buffers --------------------------------------------------------------

  /** dst[a++] = ..., for one character or for an escape of three. */
  method Put(dst: array<Byte>, a: nat, t: Bytes) returns (a': nat)
    requires (|t| == 1 || |t| == 3) && a + |t| <= dst.Length
    modifies dst
    ensures a' == a + |t| && dst[..a'] == old(dst[..a]) + t
    ensures forall m :: a' <= m < dst.Length ==> dst[m] == old(dst[m])
  {
    dst[a] := t[0];
    if |t| == 3 {
      dst[a + 1] := t[1];
      dst[a + 2] := t[2];
    }
    a' := a + |t|;
  }

  /** url_encode. The number returned counts the terminator. */
  method UrlEncodeBuffer(dst: array<Byte>, src: Bytes, len: nat) returns (a: nat)
    requires len <= |src| && |UrlEncode(src[..len])| < dst.Length
    modifies dst
    ensures a == |UrlEncode(src[..len])| + 1 && dst[..a] == UrlEncode(src[..len]) + ['\0']
    ensures forall m :: a <= m < dst.Length ==> dst[m] == old(dst[m])
  {
    a := 0;
    var b := 0;
    ghost var s := src[..len];
    while b < len
      invariant b <= len && a <= dst.Length && dst[..a] + UrlEncode(s[b..]) == UrlEncode(s)
      invariant forall m :: a <= m < dst.Length ==> dst[m] == old(dst[m])
    {
      assert s[b] == src[b] && s[b..][1..] == s[b + 1..];
      ConcatAssoc(dst[..a], UrlEscape(src[b]), UrlEncode(s[b + 1..]));
      if src[b] == ' ' {
        a := Put(dst, a, "%20");
      } else if src[b] == '\n' {
        a := Put(dst, a, "%0a");
      } else if src[b] == '+' {
        a := Put(dst, a, "%2B");
      } else {
        a := Put(dst, a, [src[b]]);
      }
      b := b + 1;
    }
    assert s[b..] == [];
    a := Put(dst, a, ['\0']);
  }

  /** sqa_encode */
  method SqaEncodeBuffer(dst: array<Byte>, src: Bytes, len: nat) returns (a: nat)
    requires len <= |src| && |SqaEncode(src[..len])| < dst.Length
    modifies dst
    ensures a == |SqaEncode(src[..len])| + 1 && dst[..a] == SqaEncode(src[..len]) + ['\0']
    ensures forall m :: a <= m < dst.Length ==> dst[m] == old(dst[m])
  {
    a := 0;
    var b := 0;
    ghost var s := src[..len];
    while b < len
      invariant b <= len && a <= dst.Length && dst[..a] + SqaEncode(s[b..]) == SqaEncode(s)
      invariant forall m :: a <= m < dst.Length ==> dst[m] == old(dst[m])
    {
      assert s[b] == src[b] && s[b..][1..] == s[b + 1..];
      ConcatAssoc(dst[..a], SqaEscape(src[b]), SqaEncode(s[b + 1..]));
      if src[b] == '&' {
        a := Put(dst, a, "%26");
      } else if src[b] == '%' {
        a := Put(dst, a, "%25");
      } else if src[b] == '<' {
        a := Put(dst, a, "%3C");
      } else if src[b] == '>' {
        a := Put(dst, a, "%3E");
      } else {
        a := Put(dst, a, [src[b]]);
      }
      b := b + 1;
    }
    assert s[b..] == [];
    a := Put(dst, a, ['\0']);
  }

  /** One round of url_decode, at a percent sign. */
  method PutScanned(dst: array<Byte>, a: nat, src: Bytes, b: nat) returns (a': nat)
    requires b < |src| && a + |Scan(src[b + 1..])| <= dst.Length
    modifies dst
    ensures a' == a + |Scan(src[b + 1..])| && dst[..a'] == old(dst[..a]) + Scan(src[b + 1..])
    ensures forall m :: a' <= m < dst.Length ==> dst[m] == old(dst[m])
  {
    var c := Scan(src[b + 1..]);
    if |c| > 0 {
      a' := Put(dst, a, c);
    } else {
      a' := a;
      assert dst[..a] + c == dst[..a];
    }
  }

  /** What a round decodes, and how much of the n characters left it takes. */
  function Round(src: Bytes, b: nat): Bytes
    requires b < |src|
  {
    if src[b] == '+' then [' '] else if src[b] == '%' then Scan(src[b + 1..]) else [src[b]]
  }

  function Width(c: Byte, n: nat): nat
    requires n > 0
    ensures 0 < Width(c, n) <= n
  {
    if c != '%' then 1 else Min(n, 3)
  }

  lemma DecodeRound(src: Bytes, b: nat, n: nat)
    requires 0 < n && b + n <= |src|
    ensures var w := Width(src[b], n);
            UrlDecode(src[b..], n) == Round(src, b) + UrlDecode(src[b + w..], n - w)
  {
    var t := src[b..];
    assert t[1..] == src[b + 1..];
    if n >= 3 { assert t[3..] == src[b + 3..]; }
  }

  /** What a round of url_decode writes, and how far it goes on. */
  method PutRound(dst: array<Byte>, a: nat, src: Bytes, b: nat) returns (a': nat, b': nat)
    requires b < |src| && a + |Round(src, b)| <= dst.Length
    modifies dst
    ensures a' == a + |Round(src, b)| && dst[..a'] == old(dst[..a]) + Round(src, b)
    ensures b' == b + if src[b] == '%' then 3 else 1
    ensures forall m :: a' <= m < dst.Length ==> dst[m] == old(dst[m])
  {
    if src[b] == '+' {
      a' := Put(dst, a, [' ']);
      b' := b + 1;
    } else if src[b] == '%' {
      a' := PutScanned(dst, a, src, b);
      b' := b + 3;
    } else {
      a' := Put(dst, a, [src[b]]);
      b' := b + 1;
    }
  }

  /** One round of url_decode, when n characters are left. rest is what they decode to, and left
      what is missing after the round. */
  method DecodeStep(dst: array<Byte>, a: nat, src: Bytes, b: nat, ghost n: nat, ghost rest: Bytes)
    returns (a': nat, b': nat, ghost left: Bytes)
    requires 0 < n && b + n <= |src| && rest == UrlDecode(src[b..], n) && a + |rest| <= dst.Length
    modifies dst
    ensures b' == b + if src[b] == '%' then 3 else 1
    ensures left == UrlDecode(src[b + Width(src[b], n)..], n - Width(src[b], n))
    ensures a' + |left| == a + |rest| && dst[..a'] + left == old(dst[..a]) + rest
    ensures forall m :: a' <= m < dst.Length ==> dst[m] == old(dst[m])
  {
    left := UrlDecode(src[b + Width(src[b], n)..], n - Width(src[b], n));
    DecodeRound(src, b, n);
    ConcatAssoc(dst[..a], Round(src, b), left);
    a', b' := PutRound(dst, a, src, b);
  }

  /** url_decode, on a text that is followed by a terminator. */
  method UrlDecodeBuffer(dst: array<Byte>, src: Bytes, len: nat) returns (a: nat)
    requires len <= |src| && |UrlDecode(src, len)| < dst.Length
    modifies dst
    ensures a == |UrlDecode(src, len)| + 1 && dst[..a] == UrlDecode(src, len) + ['\0']
    ensures forall m :: a <= m < dst.Length ==> dst[m] == old(dst[m])
  {
    a := 0;
    var b := 0;
    assert src[0..] == src;
    ghost var n, rest := len, UrlDecode(src, len);
    while b < len
      invariant 0 <= n <= len && (b < len ==> n == len - b) && (b >= len ==> n == 0)
      invariant rest == UrlDecode(src[len - n..], n)
      invariant a + |rest| < dst.Length && dst[..a] + rest == UrlDecode(src, len)
      invariant forall m :: a <= m < dst.Length ==> dst[m] == old(dst[m])
    {
      ghost var w := Width(src[b], n);
      a, b, rest := DecodeStep(dst, a, src, b, n, rest);
      n := n - w;
    }
    assert rest == [];
    a := Put(dst, a, ['\0']);
  }
}
