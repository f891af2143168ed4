/** How the base64 and hexadecimal routines of string.c fit together. */
module CodecLaws {
  import opened Sequences
  import opened Base64Table
  import opened Base64
  import opened BitText
  import opened HexText
  import opened HexToBase64
  import opened Base64ToHex

  // ----- the streaming decoder reads what the encoder writes --------------------------

  lemma NibblesInSextets(a: bv8, b: bv8, c: bv8)
    ensures Sextet0(a) < 64 && Sextet1(a, b) < 64 && Sextet2(b, c) < 64 && Sextet3(c) < 64
    ensures Front(Sextet0(a)) == High(a) && Across(Sextet0(a) & 3, Sextet1(a, b)) == Low(a)
    ensures (Sextet1(a, b) & 0x0F) as Nibble == High(b) && Front(Sextet2(b, c)) == Low(b)
    ensures Across(Sextet2(b, c) & 3, Sextet3(c)) == High(c) && Low(Sextet3(c)) == Low(c)
  {
  }

  /** Four characters in a row, whatever they stand for. */
  lemma FeedFour(d: Decoder, s: bv8, t: bv8, u: bv8, v: bv8)
    requires Fits(d) && d.k == 0 && s < 64 && t < 64 && u < 64 && v < 64
    ensures var d2 := Feed(Feed(d, s), t);
            var d3 := Feed(d2, u);
            var d4 := Feed(d3, v);
            && d2.k == 2 && d2.out == d.out + [Front(s), Across(s & 3, t)]
            && d3.k == 3 && d3.out == d2.out + [(t & 0x0F) as Nibble, Front(u)]
            && d4.k == 0 && d4.out == d3.out + [Across(u & 3, v), Low(v)]
  {
  }

  lemma FeedSextets(d: Decoder, a: bv8, b: bv8, c: bv8)
    requires Fits(d) && d.k == 0
    ensures Sextet0(a) < 64 && Sextet1(a, b) < 64 && Sextet2(b, c) < 64 && Sextet3(c) < 64
    ensures var d2 := Feed(Feed(d, Sextet0(a)), Sextet1(a, b));
            var d3 := Feed(d2, Sextet2(b, c));
            var d4 := Feed(d3, Sextet3(c));
            && d2.k == 2 && d2.out == d.out + Pair(a)
            && d3.k == 3 && d3.out == d2.out + Pair(b)
            && d4.k == 0 && d4.out == d3.out + Pair(c)
  {
    NibblesInSextets(a, b, c);
    FeedFour(d, Sextet0(a), Sextet1(a, b), Sextet2(b, c), Sextet3(c));
  }

  lemma StepChar(d: Decoder, v: bv8)
    requires Fits(d) && v < 64
    ensures Step(d, CharOf(v)) == Feed(d, v) && CharOf(v) != '='
  {
    IndexOfChar(v);
    CharOfZero(v);
  }

  lemma RunNext(d: Decoder, v: bv8, s: string)
    requires Fits(d) && v < 64
    ensures Run(d, [CharOf(v)] + s) == Run(Feed(d, v), s)
  {
    StepChar(d, v);
    assert ([CharOf(v)] + s)[1..] == s;
  }

  /** The decoder after the sextets of a block. */
  function AfterBlock(d: Decoder, x: seq<bv8>): (e: Decoder)
    requires Fits(d) && d.k == 0 && 1 <= |x| <= 3
    ensures Fits(e)
  {
    var b, c := if |x| > 1 then x[1] else 0, if |x| > 2 then x[2] else 0;
    SextetRange(x[0], b); SextetRange(b, c); SextetRange(c, 0);
    var d2 := Feed(Feed(d, Sextet0(x[0])), Sextet1(x[0], b));
    if |x| == 1 then d2
    else if |x| == 2 then Feed(d2, Sextet2(b, c))
    else Feed(Feed(d2, Sextet2(b, c)), Sextet3(c))
  }

  lemma AfterBlockNibbles(d: Decoder, x: seq<bv8>)
    requires Fits(d) && d.k == 0 && 1 <= |x| <= 3
    ensures var e := AfterBlock(d, x);
            e.out == d.out + Nibbles(x) && e.k == if |x| == 1 then 2 else if |x| == 2 then 3 else 0
  {
    AfterBlockPairs(d, x);
    NibblesShort(x);
    Assoc3(d.out, Pair(x[0]), if |x| > 1 then Pair(x[1]) else [], if |x| > 2 then Pair(x[2]) else []);
  }

  lemma AfterBlockPairs(d: Decoder, x: seq<bv8>)
    requires Fits(d) && d.k == 0 && 1 <= |x| <= 3
    ensures var e := AfterBlock(d, x);
            && e.k == (if |x| == 1 then 2 else if |x| == 2 then 3 else 0)
            && e.out == d.out + Pair(x[0]) + (if |x| > 1 then Pair(x[1]) else []) + (if |x| > 2 then Pair(x[2]) else [])
  {
    FeedSextets(d, x[0], if |x| > 1 then x[1] else 0, if |x| > 2 then x[2] else 0);
  }

  lemma NibblesOne(x: seq<bv8>)
    requires |x| <= 1
    ensures Nibbles(x) == (if |x| > 0 then Pair(x[0]) else []) + []
  {
  }

  lemma NibblesTwo(x: seq<bv8>)
    requires |x| <= 2
    ensures Nibbles(x) == (if |x| > 0 then Pair(x[0]) else []) + ((if |x| > 1 then Pair(x[1]) else []) + [])
  {
    if x != [] {
      NibblesOne(x[1..]);
    }
  }

  lemma NibblesShort(x: seq<bv8>)
    requires 1 <= |x| <= 3
    ensures Nibbles(x)
            == Pair(x[0]) + ((if |x| > 1 then Pair(x[1]) else []) + ((if |x| > 2 then Pair(x[2]) else []) + []))
  {
    NibblesTwo(x[1..]);
  }

  function Pair(a: bv8): seq<Nibble> { [High(a), Low(a)] }

  lemma Assoc3<T>(s: seq<T>, a: seq<T>, b: seq<T>, c: seq<T>)
    ensures ((s + a) + b) + c == s + (a + (b + (c + [])))
  {
  }

  /** The decoder stops at the padding, or goes on with what follows. */
  lemma RunBlock(d: Decoder, x: seq<bv8>, rest: string)
    requires Fits(d) && d.k == 0 && 1 <= |x| <= 3
    ensures Run(d, EncodeBlock(x) + rest)
            == if |x| == 3 then Run(AfterBlock(d, x), rest) else AfterBlock(d, x)
  {
    var b, c := if |x| > 1 then x[1] else 0, if |x| > 2 then x[2] else 0;
    SextetRange(x[0], b); SextetRange(b, c); SextetRange(c, 0);
    var t := EncodeBlock(x);
    var s2 := [t[2]] + ([t[3]] + rest);
    assert t + rest == [t[0]] + ([t[1]] + s2);
    RunNext(d, Sextet0(x[0]), [t[1]] + s2);
    var d1 := Feed(d, Sextet0(x[0]));
    RunNext(d1, Sextet1(x[0], b), s2);
    var d2 := Feed(d1, Sextet1(x[0], b));
    if |x| > 1 {
      RunNext(d2, Sextet2(b, c), [t[3]] + rest);
      if |x| == 3 { RunNext(Feed(d2, Sextet2(b, c)), Sextet3(c), rest); }
    }
  }

  lemma {:induction false} NibblesConcat(x: seq<bv8>, y: seq<bv8>)
    ensures Nibbles(x + y) == Nibbles(x) + Nibbles(y)
  {
    if x == [] {
      assert x + y == y;
    } else {
      NibblesConcat(x[1..], y);
      assert (x + y)[1..] == x[1..] + y;
      ConcatAssoc(Pair(x[0]), Nibbles(x[1..]), Nibbles(y));
    }
  }

  lemma {:induction false} RunEncode(d: Decoder, x: seq<bv8>)
    requires Fits(d) && d.k == 0
    ensures Run(d, Encode(x)).out == d.out + Nibbles(x) && Run(d, Encode(x)).k != 1
    decreases |x|
  {
    if 0 < |x| <= 3 {
      RunBlock(d, x, "");
      AfterBlockNibbles(d, x);
      assert EncodeBlock(x) + "" == Encode(x);
    } else if |x| > 3 {
      var e, head, tail := AfterBlock(d, x[..3]), x[..3], x[3..];
      RunBlock(d, head, Encode(tail));
      AfterBlockNibbles(d, head);
      RunEncode(e, tail);
      assert Encode(x) == EncodeBlock(head) + Encode(tail);
      NibblesSplit(x);
      ConcatAssoc(d.out, Nibbles(head), Nibbles(tail));
    }
  }

  lemma NibblesSplit(x: seq<bv8>)
    requires |x| >= 3
    ensures Nibbles(x) == Nibbles(x[..3]) + Nibbles(x[3..])
  {
    NibblesConcat(x[..3], x[3..]);
    assert x[..3] + x[3..] == x;
  }

  /** Base64to16 turns the encoder's text into two lower-case digits a byte, and writes nothing
      else: the number it returns is 2|x|, whatever its variable v held at the start. */
  lemma StreamOfEncode(x: seq<bv8>, uninit: bv8)
    requires uninit < 64
    ensures var d := Run(Start(uninit), Encode(x));
            Text(d.out) == HexOf(x) && Room(d) == |d.out| == 2 * |x|
  {
    RunEncode(Start(uninit), x);
  }

  // ----- hexadecimal text straight to base64 --------------------------------------------

  lemma HexBitsPair(a: Nibble, b: Nibble, rest: string)
    ensures HexBits([HexDigit(a), HexDigit(b)] + rest) == (NibbleBits(a as bv8) + NibbleBits(b as bv8)) + HexBits(rest)
  {
    var s := [HexDigit(a), HexDigit(b)] + rest;
    HexValueOfDigit(a);
    HexValueOfDigit(b);
    assert s[1..] == [HexDigit(b)] + rest && s[1..][1..] == rest;
    ConcatAssoc(NibbleBits(a as bv8), NibbleBits(b as bv8), HexBits(rest));
  }

  lemma {:induction false} HexBitsOfHex(x: seq<bv8>)
    ensures HexBits(HexOf(x)) == BitsOf(x)
  {
    if x == [] {
    } else {
      HexBitsOfHex(x[1..]);
      assert HexOf(x) == [HexDigit(High(x[0])), HexDigit(Low(x[0]))] + HexOf(x[1..]);
      HexBitsPair(High(x[0]), Low(x[0]), HexOf(x[1..]));
      assert High(x[0]) as bv8 == x[0] >> 4 && Low(x[0]) as bv8 == x[0] & 0x0F;
    }
  }

  lemma HexGroups(x: seq<bv8>)
    ensures Groups(PaddedBits(HexOf(x))) == FilledGroups(x)
  {
    HexBitsOfHex(x);
    assert 8 * Pads(2 * |x|) == Fill(|x|);
  }

  function PadForA(c: char): char { if c == 'A' then '=' else c }

  /** hex_2_base64 on the hexadecimal text of some bytes writes what the encoder writes for the
      bytes, with '=' for every 'A'. */
  lemma HexToTextIsEncode(x: seq<bv8>)
    ensures |HexToText(HexOf(x))| == |Encode(x)|
    ensures forall i :: 0 <= i < |Encode(x)| ==> HexToText(HexOf(x))[i] == PadForA(Encode(x)[i])
  {
    HexGroups(x);
    EncodeByBits(x);
    var g := FilledGroups(x);
    forall i | 0 <= i < |g| ensures ZeroAsPad(g[i]) == PadForA(Encode(x)[i]) {
      CharOfZero(g[i]);
    }
  }

  /** No group of six bits of the data is zero. The groups behind the data are not asked. */
  ghost predicate NoZeroSextet(x: seq<bv8>) {
    forall i :: 0 <= i < |FilledGroups(x)| && i < DataChars(|x|) ==> FilledGroups(x)[i] != 0
  }

  lemma AMeansZero(x: seq<bv8>)
    ensures 'A' !in Encode(x) <==> NoZeroSextet(x)
  {
    EncodeByBits(x);
    var g := FilledGroups(x);
    forall i | 0 <= i < |g| && i < DataChars(|x|) ensures Encode(x)[i] == 'A' <==> g[i] == 0 { CharOfZero(g[i]); }
    forall c | c in Encode(x) ensures exists i :: 0 <= i < |g| && Encode(x)[i] == c {
      var i :| 0 <= i < |Encode(x)| && Encode(x)[i] == c;
      assert i < |g|;
    }
  }

  /** So the two agree exactly when no sextet of the data is zero. */
  lemma HexAgreesIff(x: seq<bv8>)
    ensures HexToText(HexOf(x)) == Encode(x) <==> NoZeroSextet(x)
  {
    HexToTextIsEncode(x);
    AMeansZero(x);
    if 'A' in Encode(x) {
      var i :| 0 <= i < |Encode(x)| && Encode(x)[i] == 'A';
      assert HexToText(HexOf(x))[i] != Encode(x)[i];
    }
  }

  // ----- other digits -------------------------------------------------------------------------

  lemma {:induction false} HexBitsSame(h: string, g: string)
    requires |h| == |g| && forall i :: 0 <= i < |h| ==> HexValue(h[i]) == HexValue(g[i])
    ensures HexBits(h) == HexBits(g)
  {
    if h == "" {
    } else {
      HexBitsSame(h[1..], g[1..]);
    }
  }

  /** hex_2_base64 takes digits of either case for the nibbles of some bytes. */
  lemma AnyCase(x: seq<bv8>, h: string)
    requires |h| == 2 * |x| && forall i :: 0 <= i < |h| ==> DigitFor(h[i], Nibbles(x)[i] as int)
    ensures HexToText(h) == HexToText(HexOf(x))
  {
    forall i | 0 <= i < |h| ensures HexValue(h[i]) == HexValue(HexOf(x)[i]) {
      DigitForValue(h[i], Nibbles(x)[i] as int);
      HexValueOfDigit(Nibbles(x)[i]);
    }
    HexBitsSame(h, HexOf(x));
  }

  /** What is not a digit counts as a zero. */
  lemma NoDigitIsZero(h: string, g: string)
    requires |h| == |g|
    requires forall i :: 0 <= i < |h| ==>
               g[i] == if exists v: nat :: v < 16 && DigitFor(h[i], v) then h[i] else '0'
    ensures HexToText(h) == HexToText(g)
  {
    forall i | 0 <= i < |h| ensures HexValue(h[i]) == HexValue(g[i]) { IsHexIff(h[i]); }
    HexBitsSame(h, g);
  }

  /** The nibbles of a byte are its digits to the base 16. */
  lemma NibbleOfByte(v: bv8)
    ensures High(v) as int == v as int / 16 && Low(v) as int == v as int % 16
  {
  }

  // ----- characters outside the alphabet --------------------------------------------------------

  /** Base64to16 reads a character outside the alphabet as the one before it. */
  lemma ForeignRepeats(d: Decoder, c: char, f: char, s: string)
    requires Fits(d) && c in BASE64_CHARS && f !in BASE64_CHARS && f != '='
    ensures Run(d, [c, f] + s) == Run(d, [c, c] + s)
  {
    InTable(c);
    OutsideTable(f);
    var e := Step(d, c);
    SameFound(d, c, f);
    RunStep(d, c, [f] + s);
    RunStep(d, c, [c] + s);
    RunStep(e, f, s);
    RunStep(e, c, s);
    assert [c, f] + s == [c] + ([f] + s) && [c, c] + s == [c] + ([c] + s);
  }

  lemma SameFound(d: Decoder, c: char, f: char)
    requires Fits(d) && Index(c) < 64 && Index(f) == 0xFF
    ensures Step(Step(d, c), f) == Step(Step(d, c), c)
  {
    assert Step(d, c).v == Index(c);
    assert Found(Index(c), f) == Found(Index(c), c) == Index(c);
  }

  lemma RunStep(d: Decoder, c: char, s: string)
    requires Fits(d) && c != '='
    ensures Run(d, [c] + s) == Run(Step(d, c), s)
  {
    assert ([c] + s)[1..] == s;
  }

  // ----- there and back ---------------------------------------------------------------------

  /** How many characters stand before the first '='. */
  function Lead(s: string): nat {
    if s == "" || s[0] == '=' then 0 else 1 + Lead(s[1..])
  }

  /** How many digits n characters bring, from place k of a block on. */
  function Count(k: nat, n: nat): nat
    decreases n
  {
    if n == 0 then 0 else Digits(k) + Count(if k == 3 then 0 else k + 1, n - 1)
  }

  lemma {:induction false} RunCount(d: Decoder, s: string)
    requires Fits(d)
    ensures |Run(d, s).out| == |d.out| + Count(d.k, Lead(s))
    decreases |s|
  {
    if s != "" && s[0] != '=' { RunCount(Step(d, s[0]), s[1..]); }
  }

  lemma {:induction false} CountGrows(k: nat, m: nat, n: nat)
    requires m < n
    ensures Count(k, m) < Count(k, n)
    decreases m
  {
    if m == 0 {
    } else {
      CountGrows(if k == 3 then 0 else k + 1, m - 1, n - 1);
    }
  }

  /** Writing '=' for 'A' shortens the part before the first '=' just when there is an 'A'. */
  lemma {:induction false} LeadShrinks(s: string, t: string)
    requires |s| == |t| && forall i :: 0 <= i < |s| ==> t[i] == PadForA(s[i])
    requires forall i, j :: 0 <= i < j < |s| && s[i] == '=' ==> s[j] == '='
    ensures Lead(t) <= Lead(s) && (Lead(t) < Lead(s) <==> 'A' in s)
  {
    if s != "" && s[0] != '=' && s[0] != 'A' { LeadShrinks(s[1..], t[1..]); }
  }

  /** Reading back what hex_2_base64 wrote gives the digits exactly when no sextet was zero. When
      one was, the text that comes back is too short. */
  lemma HexRoundTripIff(x: seq<bv8>, uninit: bv8)
    requires uninit < 64
    ensures var d := Run(Start(uninit), HexToText(HexOf(x)));
            && (Text(d.out) == HexOf(x) <==> NoZeroSextet(x))
            && (!NoZeroSextet(x) ==> |d.out| < 2 * |x|)
  {
    var s, t := Encode(x), HexToText(HexOf(x));
    AMeansZero(x);
    HexToTextIsEncode(x);
    StreamOfEncode(x, uninit);
    if 'A' in s {
      EncodePads(x);
      LeadShrinks(s, t);
      RunCount(Start(uninit), s);
      RunCount(Start(uninit), t);
      CountGrows(0, Lead(t), Lead(s));
    } else {
      HexAgreesIff(x);
    }
  }

  lemma EncodePads(x: seq<bv8>)
    ensures forall i, j :: 0 <= i < j < |Encode(x)| && Encode(x)[i] == '=' ==> Encode(x)[j] == '='
  {
    EncodeByBits(x);
    var g := FilledGroups(x);
    forall i | 0 <= i < |g| && i < DataChars(|x|) ensures Encode(x)[i] != '=' { CharOfZero(g[i]); }
  }

  /** The same for every text of lower-case digits, two a byte. */
  lemma LowerHexRoundTripIff(h: string, uninit: bv8)
    requires |h| % 2 == 0 && (forall i :: 0 <= i < |h| ==> h[i] in "0123456789abcdef") && uninit < 64
    ensures Text(Run(Start(uninit), HexToText(h)).out) == h <==> NoZeroSextet(Unhex(h))
  {
    forall i | 0 <= i < |h| ensures IsLowerHex(h[i]) { LowerInTable(h[i]); }
    HexOfUnhex(h);
    HexRoundTripIff(Unhex(h), uninit);
  }

  /** One zero byte: the encoder writes two sextets and pads, hex_2_base64 writes nothing but
      padding, and nothing comes back. */
  lemma ZeroByteFails(uninit: bv8)
    requires uninit < 64
    ensures Encode([0]) == "AA==" && HexToText(HexOf([0])) == "===="
    ensures Run(Start(uninit), HexToText(HexOf([0]))).out == []
  {
    CharOfZero(Sextet0(0));
    CharOfZero(Sextet1(0, 0));
    HexToTextIsEncode([0]);
    assert Encode([0]) == "AA==";
    assert HexToText(HexOf([0])) == "====";
  }
}
