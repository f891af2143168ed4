/** Section 4 of RFC 4648 read literally: the input as one stream of bits, cut into groups of
    six. Bits are the characters '0' and '1', as in hex_2_base64. */
module BitText {
  import opened Sequences
  import opened Base64Table
  import opened Base64

  function Digit(v: bv8, mask: bv8): char {
    if v & mask != 0 then '1' else '0'
  }

  function NibbleBits(v: bv8): (s: string)
    ensures |s| == 4
  {
    [Digit(v, 8), Digit(v, 4), Digit(v, 2), Digit(v, 1)]
  }

  /** The bits of a byte, the most significant one first. */
  function ByteBits(v: bv8): (s: string)
    ensures |s| == 8
  {
    NibbleBits(v >> 4) + NibbleBits(v & 0x0F)
  }

  function BitsOf(x: seq<bv8>): (s: string)
    ensures |s| == 8 * |x|
  {
    if x == [] then "" else ByteBits(x[0]) + BitsOf(x[1..])
  }

  function Zeros(n: nat): (s: string)
    ensures |s| == n
  {
    if n == 0 then "" else "0" + Zeros(n - 1)
  }

  function Value(c: char, weight: bv8): bv8 {
    if c == '1' then weight else 0
  }

  /** The number six digits stand for. */
  function Pack(s: string): (v: bv8)
    requires |s| == 6
    ensures v < 64
  {
    Value(s[0], 32) | Value(s[1], 16) | Value(s[2], 8) | Value(s[3], 4) | Value(s[4], 2) | Value(s[5], 1)
  }

  /** The groups of six of a text; a rest shorter than that is ignored. */
  function Groups(s: string): (r: seq<bv8>)
    ensures |r| == |s| / 6 && forall i :: 0 <= i < |r| ==> r[i] < 64
  {
    if |s| < 6 then [] else [Pack(s[..6])] + Groups(s[6..])
  }

  /** How many zero bits fill up n bytes to whole blocks of three. */
  function Fill(n: nat): nat {
    8 * ((3 - n % 3) % 3)
  }

  // ----- one block ------------------------------------------------------------------

  lemma PackEnds(v: bv8)
    ensures var x := ByteBits(v);
            && Pack([x[0], x[1], x[2], x[3], x[4], x[5]]) == Sextet0(v)
            && Pack([x[2], x[3], x[4], x[5], x[6], x[7]]) == Sextet3(v)
  {
  }

  lemma PackMiddle(a: bv8, b: bv8)
    ensures var (x, y) := (ByteBits(a), ByteBits(b));
            && Pack([x[6], x[7], y[0], y[1], y[2], y[3]]) == Sextet1(a, b)
            && Pack([x[4], x[5], x[6], x[7], y[0], y[1]]) == Sextet2(a, b)
  {
  }

  lemma PackBlock(s: string, a: bv8, b: bv8, c: bv8)
    requires s == ByteBits(a) + ByteBits(b) + ByteBits(c)
    ensures Pack(s[0..6]) == Sextet0(a) && Pack(s[6..12]) == Sextet1(a, b)
    ensures Pack(s[12..18]) == Sextet2(b, c) && Pack(s[18..24]) == Sextet3(c)
  {
    var x, y, z := ByteBits(a), ByteBits(b), ByteBits(c);
    PackEnds(a);
    PackMiddle(a, b);
    PackMiddle(b, c);
    PackEnds(c);
    Cut24(s, x, y, z);
  }

  lemma Cut24(s: string, x: string, y: string, z: string)
    requires |x| == |y| == |z| == 8 && s == x + y + z
    ensures s[0..6] == [x[0], x[1], x[2], x[3], x[4], x[5]]
    ensures s[6..12] == [x[6], x[7], y[0], y[1], y[2], y[3]]
    ensures s[12..18] == [y[4], y[5], y[6], y[7], z[0], z[1]]
    ensures s[18..24] == [z[2], z[3], z[4], z[5], z[6], z[7]]
  {
  }

  lemma GroupsNext(s: string, i: nat)
    requires i + 6 <= |s|
    ensures Groups(s[i..]) == [Pack(s[i..i + 6])] + Groups(s[i + 6..])
  {
    assert s[i..][..6] == s[i..i + 6] && s[i..][6..] == s[i + 6..];
  }

  lemma TwoInFront<T>(a: T, b: T, r: seq<T>)
    ensures [a] + ([b] + r) == [a, b] + r
  {
  }

  lemma GroupsTwo(s: string, i: nat)
    requires i + 12 <= |s|
    ensures Groups(s[i..]) == [Pack(s[i..i + 6]), Pack(s[i + 6..i + 12])] + Groups(s[i + 12..])
  {
    GroupsNext(s, i);
    GroupsNext(s, i + 6);
    TwoInFront(Pack(s[i..i + 6]), Pack(s[i + 6..i + 12]), Groups(s[i + 12..]));
  }

  lemma GroupsFour(t: string)
    requires |t| >= 24
    ensures Groups(t) == [Pack(t[0..6]), Pack(t[6..12])] + ([Pack(t[12..18]), Pack(t[18..24])] + Groups(t[24..]))
  {
    assert t[0..] == t;
    GroupsTwo(t, 0);
    GroupsTwo(t, 12);
  }

  lemma PrefixSlice<T>(s: seq<T>, rest: seq<T>, i: nat, j: nat)
    requires i <= j <= |s|
    ensures (s + rest)[i..j] == s[i..j] && (s + rest)[|s|..] == rest
  {
  }

  lemma GroupsBlock(s: string, rest: string, a: bv8, b: bv8, c: bv8)
    requires s == ByteBits(a) + ByteBits(b) + ByteBits(c)
    ensures Groups(s + rest) == [Sextet0(a), Sextet1(a, b), Sextet2(b, c), Sextet3(c)] + Groups(rest)
  {
    PackBlock(s, a, b, c);
    GroupsFour(s + rest);
    ConcatAssoc([Sextet0(a), Sextet1(a, b)], [Sextet2(b, c), Sextet3(c)], Groups(rest));
    PrefixSlice(s, rest, 0, 6);
    PrefixSlice(s, rest, 6, 12);
    PrefixSlice(s, rest, 12, 18);
    PrefixSlice(s, rest, 18, 24);
  }

  // ----- whole inputs -----------------------------------------------------------------

  /** What the encoder writes: the characters of the groups that hold data, and then padding. */
  function Spell(g: seq<bv8>, data: nat): (s: string)
    requires forall i :: 0 <= i < |g| ==> g[i] < 64
  {
    seq(|g|, i requires 0 <= i < |g| => if i < data then CharOf(g[i]) else '=')
  }

  /** How many sextets it takes to hold n bytes. */
  function DataChars(n: nat): nat { (8 * n + 5) / 6 }

  /** The groups of the input, filled up to whole blocks. */
  function FilledGroups(x: seq<bv8>): (g: seq<bv8>)
    ensures forall i :: 0 <= i < |g| ==> g[i] < 64
  {
    Groups(BitsOf(x) + Zeros(Fill(|x|)))
  }

  lemma {:induction false} BitsOfConcat(x: seq<bv8>, y: seq<bv8>)
    ensures BitsOf(x + y) == BitsOf(x) + BitsOf(y)
  {
    if x == [] {
      assert x + y == y;
    } else {
      BitsOfConcat(x[1..], y);
      assert (x + y)[1..] == x[1..] + y;
      ConcatAssoc(ByteBits(x[0]), BitsOf(x[1..]), BitsOf(y));
    }
  }

  lemma EightZeros()
    ensures Zeros(8) == "00000000"
  {
    assert Zeros(3) == "000" && Zeros(6) == "000" + Zeros(3);
  }

  lemma {:induction false} ZerosAdd(m: nat, n: nat)
    ensures Zeros(m) + Zeros(n) == Zeros(m + n)
  {
    if m == 0 {
    } else {
      ZerosAdd(m - 1, n);
    }
  }

  lemma ZeroBits()
    ensures BitsOf([0]) == Zeros(8) && BitsOf([0, 0]) == Zeros(16) && BitsOf([]) == Zeros(0)
  {
    EightZeros();
    assert ByteBits(0) == "00000000";
    BitsOfNext(0, []);
    BitsOfNext(0, [0]);
    assert [0] + [] == [0 as bv8] && [0] + [0] == [0 as bv8, 0];
    ZerosAdd(8, 8);
  }

  /** The input with zero bytes behind it, to whole blocks of three. */
  function ZeroBytes(n: nat): (z: seq<bv8>)
    ensures 8 * |z| == Fill(n)
  {
    if n % 3 == 0 then [] else if n % 3 == 1 then [0, 0] else [0]
  }

  lemma FillBits(n: nat)
    ensures BitsOf(ZeroBytes(n)) == Zeros(Fill(n))
  {
    ZeroBits();
  }

  lemma FilledBits(x: seq<bv8>)
    ensures BitsOf(x) + Zeros(Fill(|x|)) == BitsOf(x + ZeroBytes(|x|))
  {
    FillBits(|x|);
    BitsOfConcat(x, ZeroBytes(|x|));
  }

  lemma FilledNext(x: seq<bv8>)
    requires |x| > 0
    ensures var e := Min(3, |x|);
            var (b, c) := (if |x| > 1 then x[1] else 0, if |x| > 2 then x[2] else 0);
            x + ZeroBytes(|x|) == [x[0], b, c] + (x[e..] + ZeroBytes(|x| - e))
  {
  }

  lemma BitsOfThree(a: bv8, b: bv8, c: bv8, rest: seq<bv8>)
    ensures BitsOf([a, b, c] + rest) == (ByteBits(a) + ByteBits(b) + ByteBits(c)) + BitsOf(rest)
  {
    BitsOfNext(a, [b, c] + rest);
    BitsOfNext(b, [c] + rest);
    BitsOfNext(c, rest);
    assert [a, b, c] + rest == [a] + ([b, c] + rest) && [b, c] + rest == [b] + ([c] + rest);
    Assoc4(ByteBits(a), ByteBits(b), ByteBits(c), BitsOf(rest));
  }

  lemma BitsOfNext(a: bv8, rest: seq<bv8>)
    ensures BitsOf([a] + rest) == ByteBits(a) + BitsOf(rest)
  {
    assert ([a] + rest)[1..] == rest;
  }

  lemma Assoc4(a: string, b: string, c: string, d: string)
    ensures a + (b + (c + d)) == (a + b + c) + d
  {
  }

  /** The groups of the input are those of the bytes it is filled up to. */
  lemma FilledGroupsOf(x: seq<bv8>)
    ensures FilledGroups(x) == Groups(BitsOf(x + ZeroBytes(|x|)))
  {
    FilledBits(x);
  }

  lemma GroupsOfThree(a: bv8, b: bv8, c: bv8, rest: seq<bv8>)
    ensures Groups(BitsOf([a, b, c] + rest))
            == [Sextet0(a), Sextet1(a, b), Sextet2(b, c), Sextet3(c)] + Groups(BitsOf(rest))
  {
    BitsOfThree(a, b, c, rest);
    GroupsBlock(ByteBits(a) + ByteBits(b) + ByteBits(c), BitsOf(rest), a, b, c);
  }

  /** The groups of the input, one block of three bytes at a time. */
  lemma FilledGroupsNext(x: seq<bv8>)
    requires |x| > 0
    ensures var (b, c) := (if |x| > 1 then x[1] else 0, if |x| > 2 then x[2] else 0);
            FilledGroups(x) == [Sextet0(x[0]), Sextet1(x[0], b), Sextet2(b, c), Sextet3(c)]
                               + FilledGroups(x[Min(3, |x|)..])
  {
    var e := Min(3, |x|);
    var b, c := if |x| > 1 then x[1] else 0, if |x| > 2 then x[2] else 0;
    FilledGroupsOf(x);
    FilledGroupsOf(x[e..]);
    FilledNext(x);
    GroupsOfThree(x[0], b, c, x[e..] + ZeroBytes(|x| - e));
  }

  /** text is what the encoder writes for the groups g, of which the first data hold data. */
  ghost predicate Spells(text: string, g: seq<bv8>, data: nat) {
    && (forall i :: 0 <= i < |g| ==> g[i] < 64)
    && text == Spell(g, data)
    && forall i :: data <= i < |g| ==> g[i] == 0
  }

  lemma SpellBlock(b: seq<bv8>, g: seq<bv8>, b1: bv8, b2: bv8)
    requires 1 <= |b| <= 3
    requires b1 == (if |b| > 1 then b[1] else 0) && b2 == (if |b| > 2 then b[2] else 0)
    requires g == [Sextet0(b[0]), Sextet1(b[0], b1), Sextet2(b1, b2), Sextet3(b2)]
    ensures Spells(EncodeBlock(b), g, DataChars(|b|))
  {
    SextetRange(b[0], b1);
    SextetRange(b1, b2);
    SextetRange(b2, 0);
    assert Sextet2(0, 0) == 0 && Sextet3(0) == 0;
  }

  lemma SpellJoin(t: string, g: seq<bv8>, u: string, h: seq<bv8>, data: nat)
    requires Spells(t, g, |g|) && Spells(u, h, data)
    ensures Spells(t + u, g + h, |g| + data)
  {
  }

  lemma DataShift(n: nat)
    requires n >= 3
    ensures DataChars(n) == 4 + DataChars(n - 3)
  {
    assert 8 * n + 5 == (8 * (n - 3) + 5) + 6 * 4;
  }

  lemma FilledGroupsEmpty()
    ensures FilledGroups([]) == []
  {
    assert BitsOf([]) + Zeros(0) == "";
  }

  lemma FirstGroups(x: seq<bv8>) returns (g: seq<bv8>)
    requires |x| > 0
    ensures var e := Min(3, |x|);
            |g| == 4 && FilledGroups(x) == g + FilledGroups(x[e..])
            && Spells(EncodeBlock(x[..e]), g, DataChars(e))
  {
    var b1, b2 := if |x| > 1 then x[1] else 0, if |x| > 2 then x[2] else 0;
    g := [Sextet0(x[0]), Sextet1(x[0], b1), Sextet2(b1, b2), Sextet3(b2)];
    FilledGroupsNext(x);
    SpellBlock(x[..Min(3, |x|)], g, b1, b2);
  }

  /** ms_base64_encode is the encoding of RFC 4648, section 4: cut the bits of the input into
      groups of six, zero bits filling up the last one; write each as a character; and pad the
      text, which then stands for zero groups, to a multiple of four. */
  lemma {:induction false} EncodeByBits(x: seq<bv8>)
    ensures Spells(Encode(x), FilledGroups(x), DataChars(|x|))
  {
    FilledGroupsEmpty();
    if x == [] {
    } else {
      var g := FirstGroups(x);
      if |x| <= 3 {
        assert x[..|x|] == x && x[|x|..] == [] && g + [] == g;
      } else {
        var head, tail := EncodeBlock(x[..3]), Encode(x[3..]);
        EncodeByBits(x[3..]);
        SpellJoin(head, g, tail, FilledGroups(x[3..]), DataChars(|x| - 3));
        DataShift(|x|);
        assert Encode(x) == head + tail;
      }
    }
  }
}
