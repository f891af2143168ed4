/** What the two base64 routines promise each other, and what RFC 4648 asks of the encoder. */
module Base64Laws {
  import opened Sequences
  import opened Base64Table
  import opened Base64

  // ----- decoding undoes encoding -------------------------------------------------

  lemma BlockRoundTrip(b: seq<bv8>)
    requires 1 <= |b| <= 3
    ensures DecodeBlock(EncodeBlock(b)) == b
  {
    var b1, b2 := if |b| > 1 then b[1] else 0, if |b| > 2 then b[2] else 0;
    SextetRange(b[0], b1);
    SextetRange(b1, b2);
    SextetRange(b2, 0);
    IndexOfChar(Sextet0(b[0]));
    IndexOfChar(Sextet1(b[0], b1));
    IndexOfChar(Sextet2(b1, b2));
    IndexOfChar(Sextet3(b2));
    CharOfZero(Sextet2(b1, b2));
    CharOfZero(Sextet3(b2));
    BytesOfSextets(b[0], b1, b2);
  }

  lemma {:induction false} DecodeEncode(x: seq<bv8>)
    ensures Decode(Encode(x)) == x
  {
    if |x| == 0 {
    } else {
      var b := x[..Min(3, |x|)];
      BlockRoundTrip(b);
      if |x| <= 3 {
        assert b == x;
        assert Encode(x)[..4] == EncodeBlock(x);
        assert Encode(x)[4..] == "";
      } else {
        DecodeEncode(x[3..]);
        assert Encode(x)[..4] == EncodeBlock(b);
        assert Encode(x)[4..] == Encode(x[3..]);
        assert b + x[3..] == x;
      }
    }
  }

  /** The buffers of the two routines fit together: what ms_base64_encode writes is a text
      ms_base64_decode accepts, and a buffer of len bytes gets the first len - 1 bytes back. */
  lemma RoundTrip(x: seq<bv8>, len: int)
    ensures |Encode(x)| == (|x| + 2) / 3 * 4 && '\0' !in Encode(x)
    ensures Limit(Decode(Encode(x)), len) == if len < 1 || |x| <= len - 1 then x else x[..len - 1]
  {
    DecodeEncode(x);
    EncodeNoNul(x);
  }

  lemma {:induction false} EncodeNoNul(x: seq<bv8>)
    ensures '\0' !in Encode(x)
  {
    if |x| > 3 { EncodeNoNul(x[3..]); }
  }

  // ----- characters outside the alphabet --------------------------------------------------------

  /** What ms_base64_decode reads for a character: where no padding can stand, even a '=' is outside
      the alphabet. */
  function ReadAs(c: char, padding: bool): char {
    if c in BASE64_CHARS || (padding && c == '=') then c else '/'
  }

  function BlockReadAs(b: string): (r: string)
    requires |b| == 4
    ensures |r| == 4
  {
    [ReadAs(b[0], false), ReadAs(b[1], false), ReadAs(b[2], true), ReadAs(b[3], true)]
  }

  lemma SlashIsLast()
    ensures '/' in BASE64_CHARS && Index('/') == 63 && '=' !in BASE64_CHARS
  {
    CharAtIsTable(63);
    IndexOfChar(63);
    assert CharOf(63) == '/' && BASE64_CHARS[63] == '/';
    if '=' in BASE64_CHARS { InTable('='); }
  }

  lemma ByteOfForeign(t: bv8)
    ensures Byte0(0xFF, t) == Byte0(63, t) && Byte0(t, 0xFF) == Byte0(t, 63)
    ensures Byte1(0xFF, t) == Byte1(63, t) && Byte1(t, 0xFF) == Byte1(t, 63)
    ensures Byte2(0xFF, t) == Byte2(63, t) && Byte2(t, 0xFF) == Byte2(t, 63)
  {
  }

  lemma IndexReadAs(c: char)
    ensures Index(ReadAs(c, false)) == if Index(c) == 0xFF then 63 else Index(c)
  {
    SlashIsLast();
    if c in BASE64_CHARS { InTable(c); } else { OutsideTable(c); }
  }

  lemma BlockForeign(b: string)
    requires |b| == 4
    ensures DecodeBlock(b) == DecodeBlock(BlockReadAs(b)) && Padded(b) == Padded(BlockReadAs(b))
  {
    SlashIsLast();
    var t0, t1, t2, t3 := Index(b[0]), Index(b[1]), Index(b[2]), Index(b[3]);
    IndexReadAs(b[0]);
    IndexReadAs(b[1]);
    IndexReadAs(b[2]);
    IndexReadAs(b[3]);
    ByteOfForeign(t0);
    ByteOfForeign(t1);
    ByteOfForeign(t2);
    ByteOfForeign(t3);
    ByteOfForeign(63);
  }

  function TextReadAs(s: string): (r: string)
    ensures |r| == |s|
  {
    if |s| < 4 then s else BlockReadAs(s[..4]) + TextReadAs(s[4..])
  }

  /** A character outside the alphabet is decoded as a slash, and so is padding at the first or second
      place of a block. */
  lemma {:induction false} ForeignIsSlash(s: string)
    ensures Decode(s) == Decode(TextReadAs(s))
  {
    if |s| < 4 {
    } else {
      BlockForeign(s[..4]);
      ForeignIsSlash(s[4..]);
      var b, rest := BlockReadAs(s[..4]), TextReadAs(s[4..]);
      assert (b + rest)[..4] == b && (b + rest)[4..] == rest;
    }
  }

  /** Padding at the third place of a block leaves one byte, at the fourth place two, whatever stands
      behind it; and it ends the text. */
  lemma EndsAtPadding(s: string)
    requires |s| >= 4
    ensures s[2] == '=' ==> |Decode(s)| == 1 && Decode(s) == Decode([s[0], s[1], '=', '='])
    ensures s[2] != '=' && s[3] == '=' ==> |Decode(s)| == 2 && Decode(s) == Decode([s[0], s[1], s[2], '='])
    ensures s[2] != '=' && s[3] != '=' ==> |Decode(s)| >= 3 && Decode(s)[3..] == Decode(s[4..])
  {
    var one, two := [s[0], s[1], '=', '='], [s[0], s[1], s[2], '='];
    assert one[..4] == one && two[..4] == two;
    assert s[..4] == [s[0], s[1], s[2], s[3]];
  }

  // ----- encoding undoes decoding, for canonical texts -------------------------------

  predicate InAlphabet(c: char) { Index(c) < 64 }

  /** A block of section 3.5 of RFC 4648: four characters of the alphabet, or padding behind a
      character whose unused bits are zero. */
  predicate CanonicalBlock(b: string)
    requires |b| == 4
  {
    && InAlphabet(b[0]) && InAlphabet(b[1])
    && if b[2] == '=' then b[3] == '=' && Index(b[1]) & 0x0F == 0
       else if b[3] == '=' then InAlphabet(b[2]) && Index(b[2]) & 0x03 == 0
       else InAlphabet(b[2]) && InAlphabet(b[3])
  }

  /** Canonical blocks, of which only the last may be padded. */
  predicate Canonical(s: string) {
    if |s| < 4 then s == ""
    else CanonicalBlock(s[..4]) && (Padded(s[..4]) ==> |s| == 4) && Canonical(s[4..])
  }

  lemma BlockCanonical(b: seq<bv8>)
    requires 1 <= |b| <= 3
    ensures CanonicalBlock(EncodeBlock(b)) && (Padded(EncodeBlock(b)) <==> |b| < 3)
  {
    var b1, b2 := if |b| > 1 then b[1] else 0, if |b| > 2 then b[2] else 0;
    SextetRange(b[0], b1);
    SextetRange(b1, b2);
    SextetRange(b2, 0);
    IndexOfChar(Sextet0(b[0]));
    IndexOfChar(Sextet1(b[0], b1));
    IndexOfChar(Sextet2(b1, b2));
    IndexOfChar(Sextet3(b2));
    CharOfZero(Sextet2(b1, b2));
    CharOfZero(Sextet3(b2));
    assert Sextet1(b[0], 0) & 0x0F == 0 && Sextet2(b1, 0) & 0x03 == 0;
  }

  lemma {:induction false} EncodeCanonical(x: seq<bv8>)
    ensures Canonical(Encode(x))
  {
    if 0 < |x| <= 3 {
      BlockCanonical(x);
      assert Encode(x)[..4] == Encode(x) && Encode(x)[4..] == "";
    } else if |x| > 3 {
      BlockCanonical(x[..3]);
      EncodeCanonical(x[3..]);
      assert Encode(x)[..4] == EncodeBlock(x[..3]) && Encode(x)[4..] == Encode(x[3..]);
    }
  }

  lemma BlockInverse(b: string)
    requires |b| == 4 && CanonicalBlock(b)
    ensures EncodeBlock(DecodeBlock(b)) == b
  {
    forall c | c in b && InAlphabet(c) ensures CharOf(Index(c)) == c { CharOfIndex(c); }
    var t2 := if b[2] == '=' then 0 else Index(b[2]);
    var t3 := if b[2] == '=' || b[3] == '=' then 0 else Index(b[3]);
    SextetsOfBytes(Index(b[0]), Index(b[1]), t2, t3);
    assert b[0] in b && b[1] in b && b[2] in b && b[3] in b;
  }

  lemma {:induction false} EncodeDecode(s: string)
    requires Canonical(s)
    ensures Encode(Decode(s)) == s
  {
    if s == "" {
    } else {
      BlockInverse(s[..4]);
      EncodeDecode(s[4..]);
      var b := DecodeBlock(s[..4]);
      if |s| == 4 {
        assert s[4..] == "" && s[..4] == s;
        assert Decode(s) == b;
      } else {
        var rest := Decode(s[4..]);
        assert |s[4..]| > 0 && Encode(rest) == s[4..];
        assert (b + rest)[..3] == b && (b + rest)[3..] == rest;
        assert s[..4] + s[4..] == s;
      }
    }
  }

  /** Exactly the canonical texts survive: they are the ones that are an encoding of something. */
  lemma SurvivesIffCanonical(s: string)
    ensures Encode(Decode(s)) == s <==> Canonical(s)
  {
    if Canonical(s) { EncodeDecode(s); }
    EncodeCanonical(Decode(s));
  }
}
