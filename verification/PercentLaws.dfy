/** What the three percent-coding routines promise each other. */
module PercentLaws {
  import opened Sequences
  import opened HexText
  import opened Percent

  lemma {:induction false} UrlEncodeConcat(s: Bytes, t: Bytes)
    ensures UrlEncode(s + t) == UrlEncode(s) + UrlEncode(t)
  {
    if s == [] {
      assert s + t == t;
    } else {
      UrlEncodeConcat(s[1..], t);
      assert (s + t)[1..] == s[1..] + t;
      ConcatAssoc(UrlEscape(s[0]), UrlEncode(s[1..]), UrlEncode(t));
    }
  }

  lemma DecodePlain(c: Byte, t: Bytes)
    requires c != '%'
    ensures Decoded([c] + t) == [if c == '+' then ' ' else c] + Decoded(t)
  {
    assert ([c] + t)[1..] == t;
  }

  lemma DecodeTriple(c: Byte, d: Byte, t: Bytes)
    ensures Decoded(['%', c, d] + t) == Scan([c, d] + t) + Decoded(t)
  {
    assert (['%', c, d] + t)[3..] == t && (['%', c, d] + t)[1..] == [c, d] + t;
  }

  /** An escape, or a character that needs none, decodes to the character, wherever it stands. */
  ghost predicate DecodesTo(e: Bytes, c: Byte) {
    forall t: Bytes :: Decoded(e + t) == [c] + Decoded(t)
  }

  lemma PlainDecodes(c: Byte)
    requires c != '+' && c != '%'
    ensures DecodesTo([c], c)
  {
    forall t: Bytes ensures Decoded([c] + t) == [c] + Decoded(t) { DecodePlain(c, t); }
  }

  lemma EscapeDecodes(d: Byte, e: Byte, c: Byte)
    requires IsHex(d) && IsHex(e) && 16 * DigitValue(d) + DigitValue(e) == c as int
    ensures DecodesTo(['%', d, e], c)
  {
    forall t: Bytes ensures Decoded(['%', d, e] + t) == [c] + Decoded(t) {
      DecodeTriple(d, e, t);
      assert SkipBlanks([d, e] + t) == [d, e] + t;
    }
  }

  lemma UrlEscapeDecodes(c: Byte)
    requires c != '%'
    ensures DecodesTo(UrlEscape(c), c)
  {
    EscapeDecodes('2', '0', ' ');
    EscapeDecodes('0', 'a', '\n');
    EscapeDecodes('2', 'B', '+');
    if UrlEscape(c) == [c] { PlainDecodes(c); }
  }

  lemma SqaEscapeDecodes(c: Byte)
    requires c != '+'
    ensures DecodesTo(SqaEscape(c), c)
  {
    EscapeDecodes('2', '6', '&');
    EscapeDecodes('2', '5', '%');
    EscapeDecodes('3', 'C', '<');
    EscapeDecodes('3', 'E', '>');
    if SqaEscape(c) == [c] { PlainDecodes(c); }
  }

  // ----- both encoders, then the decoder ----------------------------------------------

  lemma BothDecode(c: Byte)
    ensures DecodesTo(UrlEncode(SqaEscape(c)), c)
  {
    if c == '+' {
      assert UrlEncode(['+']) == "%2B";
      EscapeDecodes('2', 'B', '+');
    } else if SqaEscape(c) == [c] {
      assert UrlEncode([c]) == UrlEscape(c);
      UrlEscapeDecodes(c);
    } else {
      SqaEscapeDecodes(c);
      UrlEncodeEscape(c);
    }
  }

  lemma UrlEncodeEscape(c: Byte)
    requires SqaEscape(c) != [c]
    ensures UrlEncode(SqaEscape(c)) == SqaEscape(c)
  {
    var e := SqaEscape(c);
    assert e == [e[0]] + ([e[1]] + ([e[2]] + []));
    UrlEncodeConcat([e[0]], [e[1]] + ([e[2]] + []));
    UrlEncodeConcat([e[1]], [e[2]] + []);
    assert UrlEncode([e[0]]) == [e[0]] && UrlEncode([e[1]]) == [e[1]] && UrlEncode([e[2]] + []) == [e[2]];
  }

  lemma Instance(e: Bytes, c: Byte, t: Bytes)
    requires DecodesTo(e, c)
    ensures Decoded(e + t) == [c] + Decoded(t)
  {
  }

  /** url_encode after sqa_encode is undone by url_decode, for every text. */
  lemma {:induction false} DecodeBoth(s: Bytes)
    ensures Decoded(UrlEncode(SqaEncode(s))) == s
  {
    if s == [] {
    } else {
      DecodeBoth(s[1..]);
      BothDecode(s[0]);
      UrlEncodeConcat(SqaEscape(s[0]), SqaEncode(s[1..]));
      Instance(UrlEncode(SqaEscape(s[0])), s[0], UrlEncode(SqaEncode(s[1..])));
    }
  }

  // ----- one encoder, then the decoder ---------------------------------------------------

  function PlusToBlank(c: Byte): Byte { if c == '+' then ' ' else c }

  lemma DecodeSqaEscape(c: Byte, t: Bytes)
    ensures Decoded(SqaEscape(c) + t) == [PlusToBlank(c)] + Decoded(t)
  {
    if c == '+' {
      DecodePlain(c, t);
    } else {
      SqaEscapeDecodes(c);
    }
  }

  lemma DecodeSqaHead(s: Bytes)
    requires s != []
    ensures Decoded(SqaEncode(s)) == [PlusToBlank(s[0])] + Decoded(SqaEncode(s[1..]))
  {
    DecodeSqaEscape(s[0], SqaEncode(s[1..]));
  }

  lemma {:induction false} DecodeSqa(s: Bytes)
    ensures |Decoded(SqaEncode(s))| == |s|
    ensures forall i :: 0 <= i < |s| ==> Decoded(SqaEncode(s))[i] == PlusToBlank(s[i])
  {
    if s == [] {
    } else {
      DecodeSqaHead(s);
      DecodeSqa(s[1..]);
    }
  }

  /** sqa_encode alone is undone exactly when there is no plus sign, which comes back as a blank. */
  lemma {:induction false} DecodeSqaIff(s: Bytes)
    ensures Decoded(SqaEncode(s)) == s <==> '+' !in s
  {
    DecodeSqa(s);
    if '+' in s {
      var i :| 0 <= i < |s| && s[i] == '+';
      assert Decoded(SqaEncode(s))[i] != s[i];
    }
  }

  lemma DecodeUrlHead(s: Bytes)
    requires s != [] && s[0] != '%'
    ensures Decoded(UrlEncode(s)) == [s[0]] + Decoded(UrlEncode(s[1..]))
  {
    UrlEscapeDecodes(s[0]);
    Instance(UrlEscape(s[0]), s[0], UrlEncode(s[1..]));
  }

  // What becomes of a percent sign that url_encode let through: the decoder takes two more
  // characters with it, wherever they come from.

  lemma UrlEncodeFrom(s: Bytes, i: nat)
    requires i < |s|
    ensures UrlEncode(s[i..]) == UrlEscape(s[i]) + UrlEncode(s[i + 1..])
  {
    assert s[i..][1..] == s[i + 1..];
  }

  lemma UrlEncodeTwo(s: Bytes)
    requires |s| >= 2 && s[0] == '%'
    ensures UrlEncode(s) == ['%'] + (UrlEscape(s[1]) + UrlEncode(s[2..]))
  {
    assert s[0..] == s;
    UrlEncodeFrom(s, 0);
    UrlEncodeFrom(s, 1);
  }

  /** Fewer than two characters are left behind it. */
  lemma PercentAtEnd(s: Bytes)
    requires 1 <= |s| <= 2 && s[0] == '%' && (|s| == 2 ==> UrlEscape(s[1]) == [s[1]])
    ensures |Decoded(UrlEncode(s))| < |s|
  {
    if |s| == 2 {
      UrlEncodeTwo(s);
      assert UrlEncode(s) == ['%', s[1]];
    } else {
      assert UrlEncode(s) == ['%'] && ['%'][1..] == [];
    }
  }

  lemma Three<T>(e: seq<T>, rest: seq<T>)
    requires |e| == 3
    ensures e + rest == [e[0], e[1]] + ([e[2]] + rest)
  {
  }

  /** A percent sign, and two characters from the texts behind it. */
  lemma DecodeAcross(a: Byte, b: Byte, t: Bytes)
    ensures Decoded(['%'] + ([a, b] + t)) == Scan([a, b] + t) + Decoded(t)
  {
    DecodeTriple(a, b, t);
    assert ['%'] + ([a, b] + t) == ['%', a, b] + t;
  }

  lemma EscapeDigits(c: Byte)
    ensures var e := UrlEscape(c);
            |e| == 3 ==> e[0] == '%' && e[1] != '+' && e[1] != '%' && e[2] != '+' && e[2] != '%'
  {
  }

  lemma PercentBeforeEscape(s: Bytes)
    requires |s| >= 2 && s[0] == '%' && UrlEscape(s[1]) != [s[1]]
    ensures |Decoded(UrlEncode(s))| == 1 + |Decoded(UrlEncode(s[2..]))|
  {
    var e, rest := UrlEscape(s[1]), UrlEncode(s[2..]);
    UrlEncodeTwo(s);
    EscapeDigits(s[1]);
    Three(e, rest);
    DecodeAcross(e[0], e[1], [e[2]] + rest);
    assert Scan([e[0], e[1]] + ([e[2]] + rest)) == [];
    DecodePlain(e[2], rest);
  }

  lemma PlainPair(a: Byte, e: Bytes, rest: Bytes)
    requires e != []
    ensures [a] + (e + rest) == [a, e[0]] + (e[1..] + rest)
  {
  }

  /** Before a percent sign no character starts a number of more than one digit. */
  lemma ScanBeforePercent(a: Byte, t: Bytes)
    ensures Scan([a, '%'] + t) != ['%']
  {
    var s := [a, '%'] + t;
    if Blank(a) {
      assert s[1..][0] == '%';
      assert SkipBlanks(s) == SkipBlanks(s[1..]) == s[1..];
    } else {
      assert SkipBlanks(s) == s && s[1] == '%';
    }
  }

  lemma PercentBeforePlain(s: Bytes) returns (c: Bytes)
    requires |s| >= 3 && s[0] == '%' && UrlEscape(s[1]) == [s[1]]
    ensures var e := UrlEscape(s[2]);
            && |c| <= 1 && (|e| == 3 ==> c != ['%'])
            && Decoded(UrlEncode(s)) == c + (e[1..] + Decoded(UrlEncode(s[3..])))
  {
    var e, rest := UrlEscape(s[2]), UrlEncode(s[3..]);
    UrlEncodeTwo(s);
    UrlEncodeFrom(s, 2);
    PlainPair(s[1], e, rest);
    DecodeAcross(s[1], e[0], e[1..] + rest);
    EscapeDigits(s[2]);
    PlainTail(e, rest);
    c := Scan([s[1], e[0]] + (e[1..] + rest));
    if |e| == 3 { ScanBeforePercent(s[1], e[1..] + rest); }
  }

  lemma PlainTail(f: Bytes, rest: Bytes)
    requires |f| == 1 || (|f| == 3 && f[1] != '+' && f[1] != '%' && f[2] != '+' && f[2] != '%')
    ensures Decoded(f[1..] + rest) == f[1..] + Decoded(rest)
  {
    if |f| == 3 {
      DecodePlain(f[1], [f[2]] + rest);
      DecodePlain(f[2], rest);
      PairFront(f[1], f[2], rest);
      PairFront(f[1], f[2], Decoded(rest));
      assert f[1..] == [f[1], f[2]];
    } else {
      assert f[1..] + rest == rest;
    }
  }

  lemma PairFront<T>(a: T, b: T, t: seq<T>)
    ensures [a] + ([b] + t) == [a, b] + t
  {
  }

  /** It never comes back as it was, and what comes back is not longer. */
  lemma PercentLost(s: Bytes)
    requires s != [] && s[0] == '%'
    requires |s| >= 2 ==> |Decoded(UrlEncode(s[2..]))| <= |s| - 2
    requires |s| >= 3 ==> |Decoded(UrlEncode(s[3..]))| <= |s| - 3
    ensures Decoded(UrlEncode(s)) != s && |Decoded(UrlEncode(s))| <= |s|
  {
    if |s| == 1 || (|s| == 2 && UrlEscape(s[1]) == [s[1]]) {
      PercentAtEnd(s);
    } else if UrlEscape(s[1]) != [s[1]] {
      PercentBeforeEscape(s);
    } else {
      var c := PercentBeforePlain(s);
      if |UrlEscape(s[2])| == 3 && |c| == 1 { assert Decoded(UrlEncode(s))[0] == c[0]; }
    }
  }

  lemma {:induction false} DecodeUrlShrinks(s: Bytes)
    ensures |Decoded(UrlEncode(s))| <= |s|
    decreases |s|
  {
    if s == [] {
    } else {
      if s[0] != '%' {
        DecodeUrlHead(s);
        DecodeUrlShrinks(s[1..]);
      } else {
        if |s| >= 2 { DecodeUrlShrinks(s[2..]); }
        if |s| >= 3 { DecodeUrlShrinks(s[3..]); }
        PercentLost(s);
      }
    }
  }

  /** url_encode alone is undone exactly when there is no percent sign. */
  lemma {:induction false} DecodeUrlIff(s: Bytes)
    ensures Decoded(UrlEncode(s)) == s <==> '%' !in s
  {
    if s == [] {
    } else {
      if s[0] == '%' {
        if |s| >= 2 { DecodeUrlShrinks(s[2..]); }
        if |s| >= 3 { DecodeUrlShrinks(s[3..]); }
        PercentLost(s);
      } else {
        DecodeUrlHead(s);
        DecodeUrlIff(s[1..]);
        assert '%' in s <==> '%' in s[1..];
        assert s == [s[0]] + s[1..];
      }
    }
  }

  /** A text that looks like an escape, and one that loses its percent sign to a tabulator. */
  lemma DecodeUrlFails()
    ensures Decoded(UrlEncode("%41")) == "A" && Decoded(UrlEncode("%\t25")) == "%5"
  {
    LostToEscape();
    LostToBlank();
  }

  lemma LostToEscape()
    ensures Decoded(UrlEncode("%41")) == "A"
  {
    assert UrlEncode("%41") == "%41" && "%41"[1..] == "41" && "%41"[3..] == "";
    assert SkipBlanks("41") == "41";
  }

  lemma LostToBlank()
    ensures Decoded(UrlEncode("%\t25")) == "%5"
  {
    var t := "%\t25";
    assert UrlEncode("\t25") == "\t25";
    assert UrlEncode(t) == t && t[1..] == "\t25" && t[1..][1..] == "25" && t[3..] == "5";
    assert SkipBlanks(t[1..]) == SkipBlanks("25") == "25";
    assert Decoded("5") == "5";
  }

  // ----- every escape there is ---------------------------------------------------------------

  /** A percent sign and the two digits of a byte, in either case, decode to the byte. */
  lemma EscapedByte(c: Byte, d: Byte, e: Byte)
    requires DigitFor(d, c as int / 16) && DigitFor(e, c as int % 16)
    ensures Decoded(['%', d, e]) == [c] && DecodesTo(['%', d, e], c)
  {
    DigitForValue(d, c as int / 16);
    DigitForValue(e, c as int % 16);
    EscapeDecodes(d, e, c);
    Instance(['%', d, e], c, []);
    assert ['%', d, e] + [] == ['%', d, e];
  }

  /** What sscanf makes of anything else behind a percent sign: blanks are skipped; a sign takes one
      digit, and one digit before something else is a number; what does not begin with a digit, and
      the prefix 0x, are none. */
  lemma ScanBlank(b: Byte, t: Bytes)
    requires b as int == 32 || 9 <= b as int <= 13
    ensures Scan([b] + t) == Scan(t)
  {
    assert Blank(b) && ([b] + t)[1..] == t;
  }

  lemma NumberStart(c: Byte, t: Bytes)
    requires c as int != 32 && !(9 <= c as int <= 13)
    ensures Scan([c] + t) == Number([c] + t)
  {
    assert !Blank(c);
  }

  lemma ScanSigned(v: nat, d: Byte, t: Bytes)
    requires v < 16 && DigitFor(d, v)
    ensures Scan(['+', d] + t) == [v as char]
    ensures Scan(['-', d] + t) == [(if v == 0 then 0 else 256 - v) as char]
  {
    DigitForValue(d, v);
    NumberStart('+', [d] + t);
    NumberStart('-', [d] + t);
    assert ['+'] + ([d] + t) == ['+', d] + t && ['-'] + ([d] + t) == ['-', d] + t;
  }

  lemma ScanOneDigit(v: nat, d: Byte, t: Bytes)
    requires v < 16 && DigitFor(d, v)
    requires t == [] || forall w: nat :: w < 16 ==> !DigitFor(t[0], w)
    requires t != [] && v == 0 ==> t[0] != 'x' && t[0] != 'X'
    ensures Scan([d] + t) == [v as char]
  {
    DigitForValue(d, v);
    NumberStart(d, t);
    if t != [] {
      IsHexIff(t[0]);
      assert ([d] + t)[1] == t[0];
    }
  }

  lemma ScanNone(c: Byte, t: Bytes)
    requires c as int != 32 && !(9 <= c as int <= 13) && forall w: nat :: w < 16 ==> !DigitFor(c, w)
    requires c == '+' || c == '-' ==> t == [] || forall w: nat :: w < 16 ==> !DigitFor(t[0], w)
    ensures Scan([c] + t) == [] && Scan([]) == []
    ensures Scan("0x" + t) == [] && Scan("0X" + t) == []
  {
    NumberStart(c, t);
    IsHexIff(c);
    if t != [] {
      IsHexIff(t[0]);
      assert ([c] + t)[1] == t[0];
    }
    NumberStart('0', ['x'] + t);
    NumberStart('0', ['X'] + t);
    assert "0x" + t == ['0'] + (['x'] + t) && "0X" + t == ['0'] + (['X'] + t);
  }

  /** An escape that begins within the length is read beyond it. */
  lemma ScanLooksAhead(c: Byte, d: Byte, e: Byte, rest: Bytes)
    requires DigitFor(d, c as int / 16) && DigitFor(e, c as int % 16)
    ensures UrlDecode(['%', d, e] + rest, 1) == UrlDecode(['%', d, e] + rest, 2) == [c]
  {
    ScanTwo(c, d, e, rest);
    assert (['%', d, e] + rest)[1..] == [d, e] + rest;
  }

  lemma ScanTwo(c: Byte, d: Byte, e: Byte, rest: Bytes)
    requires DigitFor(d, c as int / 16) && DigitFor(e, c as int % 16)
    ensures Scan([d, e] + rest) == [c]
  {
    DigitForValue(d, c as int / 16);
    DigitForValue(e, c as int % 16);
    NumberStart(d, [e] + rest);
    assert [d, e] + rest == [d] + ([e] + rest);
  }

  /** The encoders escape a byte by its two digits: in upper case, but for the line feed. */
  lemma EscapesByDigits(c: Byte)
    ensures UrlEscape(c)
            == if c == ' ' || c == '+' then ['%', "0123456789ABCDEF"[c as int / 16], "0123456789ABCDEF"[c as int % 16]]
               else if c == '\n' then ['%', "0123456789abcdef"[c as int / 16], "0123456789abcdef"[c as int % 16]]
               else [c]
    ensures SqaEscape(c)
            == if c == '&' || c == '%' || c == '<' || c == '>'
               then ['%', "0123456789ABCDEF"[c as int / 16], "0123456789ABCDEF"[c as int % 16]]
               else [c]
  {
  }

  // ----- lengths and shape of the escapes --------------------------------------------------

  function UrlEscapes(s: Bytes): nat {
    if s == [] then 0 else (if s[0] in {' ', '\n', '+'} then 1 else 0) + UrlEscapes(s[1..])
  }

  lemma {:induction false} UrlLength(s: Bytes)
    ensures |UrlEncode(s)| == |s| + 2 * UrlEscapes(s)
  {
    if s == [] {
    } else {
      UrlLength(s[1..]);
    }
  }

  function SqaEscapes(s: Bytes): nat {
    if s == [] then 0 else (if s[0] in {'&', '%', '<', '>'} then 1 else 0) + SqaEscapes(s[1..])
  }

  lemma {:induction false} SqaLength(s: Bytes)
    ensures |SqaEncode(s)| == |s| + 2 * SqaEscapes(s)
  {
    if s == [] {
    } else {
      SqaLength(s[1..]);
    }
  }

  /** Section 2.1 of RFC 3986: every percent sign in what the two encoders write together is
      followed by two hexadecimal digits. */
  ghost predicate WellEscaped(s: Bytes) {
    if s == [] then true
    else if s[0] == '%' then |s| >= 3 && IsHex(s[1]) && IsHex(s[2]) && WellEscaped(s[3..])
    else WellEscaped(s[1..])
  }

  predicate Escaped(e: Bytes) {
    (|e| == 1 && e[0] != '%') || (|e| == 3 && e[0] == '%' && IsHex(e[1]) && IsHex(e[2]))
  }

  lemma EscapeShape(c: Byte)
    ensures Escaped(UrlEncode(SqaEscape(c)))
  {
    if SqaEscape(c) != [c] {
      UrlEncodeEscape(c);
    } else {
      assert UrlEncode(SqaEscape(c)) == UrlEscape(c);
    }
  }

  lemma EscapeBefore(e: Bytes, t: Bytes)
    requires Escaped(e) && WellEscaped(t)
    ensures WellEscaped(e + t)
  {
    if |e| == 3 {
      assert (e + t)[1] == e[1] && (e + t)[2] == e[2] && (e + t)[3..] == t;
    } else {
      assert (e + t)[1..] == t;
    }
  }

  lemma {:induction false} BothWellEscaped(s: Bytes)
    ensures WellEscaped(UrlEncode(SqaEncode(s)))
  {
    if s == [] {
    } else {
      BothWellEscaped(s[1..]);
      EscapeShape(s[0]);
      UrlEncodeConcat(SqaEscape(s[0]), SqaEncode(s[1..]));
      EscapeBefore(UrlEncode(SqaEscape(s[0])), UrlEncode(SqaEncode(s[1..])));
    }
  }
}
