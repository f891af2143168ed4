/** hex_2_base64 of string.c. */
module HexToBase64 {
  import opened Sequences
  import opened Base64Table
  import opened BitText
  import opened HexText

  const HEX_2_BIN: seq<string> := [
    "0000", "0001", "0010", "0011", "0100", "0101", "0110", "0111",
    "1000", "1001", "1010", "1011", "1100", "1101", "1110", "1111"]

  lemma HexToBinIsBits(v: Nibble)
    ensures HEX_2_BIN[v as int] == NibbleBits(v as bv8)
  {
  }

  /** The bits of a text of hexadecimal digits. */
  function HexBits(h: string): (s: string)
    ensures |s| == 4 * |h|
  {
    if h == "" then "" else NibbleBits(HexValue(h[0]) as bv8) + HexBits(h[1..])
  }

  /** strtol(b64buf, NULL, 2) on six digits. */
  function Binary(s: string): (v: nat)
    requires |s| == 6
    ensures v < 64
  {
    (if s[0] == '1' then 32 else 0) + (if s[1] == '1' then 16 else 0) + (if s[2] == '1' then 8 else 0)
    + (if s[3] == '1' then 4 else 0) + (if s[4] == '1' then 2 else 0) + (if s[5] == '1' then 1 else 0)
  }

  lemma BinaryIsPack(s: string)
    requires |s| == 6
    ensures Binary(s) as bv8 == Pack(s)
  {
  }

  // ----- the buffers --------------------------------------------------------------

  /** How many times eight zero digits are put behind the bits of n hexadecimal digits. */
  function Pads(n: nat): nat { n % 3 }

  /** A text after k rounds of padding. */
  function PaddedBy(s: string, k: nat): (r: string)
    ensures |r| == |s| + 8 * k
  {
    s + Zeros(8 * k)
  }

  /** The bits that are cut into groups: those of the digits, and zeros up to a multiple of six. */
  function PaddedBits(h: string): (s: string)
    ensures |s| == 4 * |h| + 8 * Pads(|h|)
  {
    PaddedBy(HexBits(h), Pads(|h|))
  }

  /** A zero group is written as padding wherever it stands. */
  function ZeroAsPad(v: bv8): char
    requires v < 64
  {
    if v == 0 then '=' else CharOf(v)
  }

  function HexToText(h: string): (s: string)
  {
    var g := Groups(PaddedBits(h));
    seq(|g|, i requires 0 <= i < |g| => ZeroAsPad(g[i]))
  }

  lemma PadsWork(n: nat, k: nat)
    requires k <= Pads(n)
    ensures (4 * n + 8 * k) % 6 == 0 <==> k == Pads(n)
  {
    var q, r := n / 3, n % 3;
    assert 4 * n + 8 * k == 6 * (2 * q) + (4 * r + 8 * k);
    if r == 0 {
      SixTimes(2 * q, 0);
    } else if r == 1 {
      if k == 0 { SixTimes(2 * q, 4); } else { SixTimes(2 * q + 2, 0); }
    } else {
      if k == 0 { SixTimes(2 * q + 1, 2); } else if k == 1 { SixTimes(2 * q + 2, 4); } else { SixTimes(2 * q + 4, 0); }
    }
  }

  lemma SixTimes(m: int, d: nat)
    requires 0 <= d < 6
    ensures (6 * m + d) % 6 == d
  {
  }

  /** while (bin_size % 6 != 0) bin_size += 8; */
  method BinSize(n: nat) returns (binSize: nat)
    ensures binSize == 4 * n + 8 * Pads(n) && binSize % 6 == 0
  {
    binSize := 4 * n;
    ghost var k := 0;
    PadsWork(n, k);
    while binSize % 6 != 0
      invariant k <= Pads(n) && binSize == 4 * n + 8 * k
      invariant binSize % 6 == 0 <==> k == Pads(n)
      decreases Pads(n) - k
    {
      binSize := binSize + 8;
      k := k + 1;
      PadsWork(n, k);
    }
  }

  /** The buffer holds the C string s. */
  ghost predicate IsCString(bin: array<char>, s: string)
    reads bin
  {
    |s| < bin.Length && bin[..|s|] == s && bin[|s|] == '\0' && '\0' !in s
  }

  /** strlen */
  method StrLen(bin: array<char>, ghost s: string) returns (n: nat)
    requires IsCString(bin, s)
    ensures n == |s|
  {
    n := 0;
    while bin[n] != '\0'
      invariant n <= |s|
      decreases |s| - n
    {
      assert n < |s| ==> bin[..|s|][n] in s;
      n := n + 1;
    }
  }

  /** The characters of strcat, behind those of s. */
  method PutZeros(bin: array<char>, n: nat)
    requires n + 8 < bin.Length
    modifies bin
    ensures bin[..n] == old(bin[..n]) && bin[n..n + 8] == "00000000" && bin[n + 8] == '\0'
  {
    bin[n], bin[n + 1], bin[n + 2], bin[n + 3] := '0', '0', '0', '0';
    bin[n + 4], bin[n + 5], bin[n + 6], bin[n + 7] := '0', '0', '0', '0';
    bin[n + 8] := '\0';
  }

  /** strcat(bin, "00000000"). It needs room for the terminator. */
  method CatZeros(bin: array<char>, ghost s: string)
    requires IsCString(bin, s) && |s| + 8 < bin.Length
    modifies bin
    ensures IsCString(bin, s + Zeros(8))
  {
    var n := StrLen(bin, s);
    PutZeros(bin, n);
    EightZeros();
    SplitAt(bin[..n + 8], n);
    assert bin[..n + 8][..n] == s && bin[..n + 8][n..] == Zeros(8);
  }

  lemma SplitAt(t: string, n: nat)
    requires n <= |t|
    ensures t == t[..n] + t[n..]
  {
  }

  /** Group number k of six characters. */
  function Six(s: string, k: nat): (g: string)
    requires 6 * k + 6 <= |s|
    ensures |g| == 6
  {
    s[6 * k..6 * k + 6]
  }

  lemma NextSix(s: string, k: nat)
    requires k > 0 && 6 * k + 6 <= |s|
    ensures Six(s[6..], k - 1) == Six(s, k)
  {
    var p := 6 * k;
    assert 6 * (k - 1) == p - 6;
    assert Six(s, k) == [s[p], s[p + 1], s[p + 2], s[p + 3], s[p + 4], s[p + 5]];
  }

  lemma {:induction false} GroupsAt(s: string, k: nat)
    requires 6 * k + 6 <= |s|
    ensures k < |Groups(s)| && Groups(s)[k] == Pack(Six(s, k))
  {
    if k > 0 {
      GroupsAt(s[6..], k - 1);
      NextSix(s, k);
    } else {
      assert Six(s, 0) == s[..6];
    }
  }

  lemma {:induction false} HexBitsClean(h: string)
    ensures '\0' !in HexBits(h)
  {
    if h == "" {
    } else {
      HexBitsClean(h[1..]);
    }
  }

  /** hex_2_bin[strtol(buf, NULL, 16)] */
  method DigitBits(c: char) returns (four: string)
    ensures four == NibbleBits(HexValue(c) as bv8)
  {
    HexToBinIsBits(HexValue(c));
    four := HEX_2_BIN[HexValue(c) as int];
  }

  lemma HexBitsFirst(h: string)
    requires h != ""
    ensures HexBits(h)[..4] == NibbleBits(HexValue(h[0]) as bv8) && HexBits(h)[4..] == HexBits(h[1..])
  {
  }

  /** Group number i of four characters. */
  function Four(s: string, i: nat): (g: string)
    requires 4 * i + 4 <= |s|
    ensures |g| == 4
  {
    s[4 * i..4 * i + 4]
  }

  lemma NextFour(s: string, i: nat)
    requires i > 0 && 4 * i + 4 <= |s|
    ensures Four(s[4..], i - 1) == Four(s, i)
  {
    var p := 4 * i;
    assert 4 * (i - 1) == p - 4;
    assert Four(s, i) == [s[p], s[p + 1], s[p + 2], s[p + 3]];
  }

  /** The bits of digit number i. */
  lemma {:induction false} HexBitsAt(h: string, i: nat)
    requires i < |h|
    ensures Four(HexBits(h), i) == NibbleBits(HexValue(h[i]) as bv8)
  {
    HexBitsFirst(h);
    if i == 0 {
    } else {
      HexBitsAt(h[1..], i - 1);
      NextFour(HexBits(h), i);
    }
  }

  /** memcpy(bin_end, four, 4) */
  method CopyFour(bin: array<char>, end: nat, four: string)
    requires |four| == 4 && end + 4 <= bin.Length
    modifies bin
    ensures bin[..end + 4] == old(bin[..end]) + four
    ensures forall m :: end + 4 <= m < bin.Length ==> bin[m] == old(bin[m])
  {
    bin[end], bin[end + 1], bin[end + 2], bin[end + 3] := four[0], four[1], four[2], four[3];
  }

  lemma TakeFour(s: string, i: nat)
    requires 4 * i + 4 <= |s|
    ensures s[..4 * i] + Four(s, i) == s[..4 * i + 4]
  {
  }

  /** The loop that copies the bits of the digits. */
  method CopyDigits(hex: string, bin: array<char>, ghost bits: string)
    requires |bits| == 4 * |hex| < bin.Length && '\0' !in bits
    requires forall i :: 0 <= i < |hex| ==> Four(bits, i) == NibbleBits(HexValue(hex[i]) as bv8)
    requires forall m :: 0 <= m < bin.Length ==> bin[m] == '\0'
    modifies bin
    ensures IsCString(bin, bits)
  {
    var i, end := 0, 0;
    while i < |hex|
      invariant i <= |hex| && end == 4 * i && bin[..end] == bits[..end]
      invariant forall m :: end <= m < bin.Length ==> bin[m] == '\0'
    {
      var four := DigitBits(hex[i]);
      TakeFour(bits, i);
      CopyFour(bin, end, four);
      i, end := i + 1, end + 4;
    }
    assert bits[..end] == bits;
  }

  lemma PaddedNext(s: string, k: nat)
    ensures PaddedBy(s, k) + Zeros(8) == PaddedBy(s, k + 1)
  {
    ConcatAssoc(s, Zeros(8 * k), Zeros(8));
    ZerosAdd(8 * k, 8);
    assert 8 * k + 8 == 8 * (k + 1);
  }

  lemma PaddedZero(s: string)
    ensures PaddedBy(s, 0) == s
  {
  }

  /** One round of the loop below. */
  method PadRound(bin: array<char>, ghost s: string, ghost k: nat) returns (len: nat)
    requires IsCString(bin, PaddedBy(s, k)) && |PaddedBy(s, k)| + 8 < bin.Length
    modifies bin
    ensures IsCString(bin, PaddedBy(s, k + 1)) && len == |PaddedBy(s, k + 1)|
  {
    CatZeros(bin, PaddedBy(s, k));
    PaddedNext(s, k);
    len := StrLen(bin, PaddedBy(s, k + 1));
  }

  /** The loop that pads: the last terminator fits exactly at the end of the buffer. */
  method PadDigits(bin: array<char>, binSize: nat, ghost s: string, ghost pads: nat)
    requires IsCString(bin, s) && bin.Length == binSize + 1 && binSize == |s| + 8 * pads
    modifies bin
    ensures IsCString(bin, PaddedBy(s, pads))
  {
    ghost var k := 0;
    PaddedZero(s);
    var len := StrLen(bin, s);
    while len < binSize
      invariant k <= pads && len == |s| + 8 * k
      invariant IsCString(bin, PaddedBy(s, k))
      decreases pads - k
    {
      len := PadRound(bin, s, k);
      k := k + 1;
    }
  }

  /** strtol(b64buf, NULL, 2), and the character for the result. */
  method GroupChar(b64buf: string) returns (c: char)
    requires |b64buf| == 6
    ensures c == ZeroAsPad(Pack(b64buf))
  {
    var index := Binary(b64buf);
    BinaryIsPack(b64buf);
    if index == 0 {
      c := '=';
    } else {
      c := CharAt(index);
    }
  }

  lemma SliceOfHeld(bin: array<char>, s: string, p: nat)
    requires IsCString(bin, s) && p + 6 <= |s|
    ensures bin[p..p + 6] == s[p..p + 6]
  {
    assert bin[p..p + 6] == bin[..|s|][p..p + 6];
  }

  /** The loop that reads six bits of s at a time, and writes t. */
  method WriteGroups(bin: array<char>, out: array<char>, ghost s: string, ghost t: string)
    requires IsCString(bin, s) && |s| == 6 * |t| && bin != out
    requires forall k :: 0 <= k < |t| ==> t[k] == ZeroAsPad(Pack(Six(s, k)))
    requires out.Length == |t| + 1 && out[|t|] == '\0'
    modifies out
    ensures out[..] == t + ['\0']
  {
    var p, end := 0, 0;
    while bin[p] != '\0'
      invariant p == 6 * end && end <= |t| && IsCString(bin, s)
      invariant out[..end] == t[..end] && out[|t|] == '\0'
      decreases |s| - p
    {
      var b64buf := bin[p..p + 6];
      SliceOfHeld(bin, s, p);
      out[end] := GroupChar(b64buf);
      assert out[end] == t[end];
      p, end := p + 6, end + 1;
    }
    assert out[..] == out[..|t|] + ['\0'];
  }

  lemma HexBitsAll(hex: string)
    ensures forall i :: 0 <= i < |hex| ==> Four(HexBits(hex), i) == NibbleBits(HexValue(hex[i]) as bv8)
  {
    forall i | 0 <= i < |hex| ensures Four(HexBits(hex), i) == NibbleBits(HexValue(hex[i]) as bv8) {
      HexBitsAt(hex, i);
    }
  }

  lemma HexTextAll(hex: string)
    requires |PaddedBits(hex)| % 6 == 0
    ensures |PaddedBits(hex)| == 6 * |HexToText(hex)|
    ensures forall k :: 0 <= k < |HexToText(hex)| ==> HexToText(hex)[k] == ZeroAsPad(Pack(Six(PaddedBits(hex), k)))
  {
    forall k | 0 <= k < |HexToText(hex)| ensures HexToText(hex)[k] == ZeroAsPad(Pack(Six(PaddedBits(hex), k))) {
      GroupsAt(PaddedBits(hex), k);
    }
  }

  /** hex_2_base64 */
  method Hex2Base64(hex: string) returns (out: array<char>)
    requires '\0' !in hex
    ensures fresh(out) && out[..] == HexToText(hex) + ['\0']
  {
    ghost var bits, s, t := HexBits(hex), PaddedBits(hex), HexToText(hex);
    var binSize := BinSize(|hex|);
    HexBitsClean(hex);
    HexBitsAll(hex);
    HexTextAll(hex);
    var bin := new char[binSize + 1](_ => '\0');
    CopyDigits(hex, bin, bits);
    PadDigits(bin, binSize, bits, Pads(|hex|));
    var len := StrLen(bin, s);
    out := new char[len / 6 + 1](_ => '\0');
    WriteGroups(bin, out, s, t);
  }
}
