/** Base64to16 of string.c: a decoder that keeps the bits it has not written yet. */
module Base64ToHex {
  import opened Base64Table
  import opened HexText

  /** The variables of the loop: k counts the characters of a block, slop holds the bits that are
      left over, and v keeps its value when a character is not in the alphabet. out is what has
      been written, as nibbles. */
  datatype Decoder = Decoder(k: nat, v: bv8, slop: bv8, out: seq<Nibble>)

  ghost predicate Fits(d: Decoder) {
    d.k < 4 && d.v < 64 && d.slop < 16 && (d.k == 1 || d.k == 3 ==> d.slop < 4)
  }

  function Start(v: bv8): Decoder { Decoder(0, v, 0, []) }

  /** The value of v after the search for c. */
  function Found(v: bv8, c: char): (r: bv8)
    ensures v < 64 ==> r < 64
  {
    CharOfIndex(c);
    if Index(c) == NO_INDEX then v else Index(c)
  }

  /** The four branches of the loop. */
  function Feed(d: Decoder, v: bv8): (r: Decoder)
    requires Fits(d) && v < 64
    ensures Fits(r) && r.k == (if d.k == 3 then 0 else d.k + 1)
    ensures |r.out| == |d.out| + Digits(d.k)
  {
    if d.k == 0 then Decoder(1, v, v & 3, d.out + [Front(v)])
    else if d.k == 1 then Decoder(2, v, v & 0x0F, d.out + [Across(d.slop, v)])
    else if d.k == 2 then Decoder(3, v, v & 3, d.out + [d.slop as Nibble, Front(v)])
    else Decoder(0, v, d.slop, d.out + [Across(d.slop, v), Low(v)])
  }

  /** v >> 2 */
  function Front(v: bv8): Nibble
    requires v < 64
  {
    (v >> 2) as Nibble
  }

  /** (slop << 2) | (v >> 4) */
  function Across(slop: bv8, v: bv8): Nibble
    requires slop < 4 && v < 64
  {
    ((slop << 2) | (v >> 4)) as Nibble
  }

  function Step(d: Decoder, c: char): (r: Decoder)
    requires Fits(d)
    ensures Fits(r) && r.k == (if d.k == 3 then 0 else d.k + 1)
    ensures |r.out| == |d.out| + Digits(d.k)
  {
    Feed(d, Found(d.v, c))
  }

  /** How many digits the character at place k of a block brings. */
  function Digits(k: nat): nat { if k < 2 then 1 else 2 }

  /** The decoder after a text, of which it reads what stands before the first '='. */
  function Run(d: Decoder, s: string): (r: Decoder)
    requires Fits(d)
    ensures Fits(r)
    decreases |s|
  {
    if s == "" || s[0] == '=' then d else Run(Step(d, s[0]), s[1..])
  }

  /** Room for what is written: the digits, and one more when the text ends after the first
      character of a block. */
  function Room(d: Decoder): nat { |d.out| + if d.k == 1 then 1 else 0 }

  /** ret[l] = BI_RM[n[0]]; l++; and the same again when there is a second nibble. */
  method PutDigits(ret: array<char>, l: nat, n: seq<Nibble>) returns (l': nat)
    requires 1 <= |n| <= 2 && l + |n| <= ret.Length
    modifies ret
    ensures l' == l + |n| && ret[..l'] == old(ret[..l]) + Text(n)
    ensures forall m :: l' <= m < ret.Length ==> ret[m] == old(ret[m])
  {
    l' := l;
    ret[l'] := HexDigit(n[0]);
    l' := l' + 1;
    if |n| > 1 {
      ret[l'] := HexDigit(n[1]);
      l' := l' + 1;
    }
  }

  /** One round of the loop, up to the writing. */
  method Round(k: nat, v: bv8, slop: bv8, ghost d: Decoder) returns (k': nat, slop': bv8, n: seq<Nibble>)
    requires Fits(d) && d.k == k && d.slop == slop && v < 64
    ensures Feed(d, v) == Decoder(k', v, slop', d.out + n)
    ensures |n| == Digits(k)
  {
    if k == 0 {
      n := [Front(v)];
      slop' := v & 3;
      k' := 1;
    } else if k == 1 {
      n := [Across(slop, v)];
      slop' := v & 0x0F;
      k' := 2;
    } else if k == 2 {
      n := [slop as Nibble, Front(v)];
      slop' := v & 3;
      k' := 3;
    } else {
      n := [Across(slop, v), Low(v)];
      slop' := slop;
      k' := 0;
    }
  }

  /** Base64to16. Its variable v has no initial value, so the text has to begin with a character
      of the alphabet or a '='; uninit stands for what v holds before. */
  method Base64To16(s: string, ret: array<char>, uninit: bv8) returns (l: nat)
    requires '\0' !in s && (s == "" || s[0] == '=' || Index(s[0]) < 64) && uninit < 64
    requires Room(Run(Start(uninit), s)) <= ret.Length
    modifies ret
    ensures var d := Run(Start(uninit), s);
            && l == |d.out| && ret[..l] == Text(d.out)
            && (d.k == 1 ==> ret[l] == HexDigit(Across(d.slop, 0)))
            && forall m :: Room(d) <= m < ret.Length ==> ret[m] == old(ret[m])
  {
    var k: nat, v, slop := 0, uninit, 0;
    l := 0;
    var i := 0;
    ghost var d, end := Start(uninit), Run(Start(uninit), s);
    assert s[0..] == s;
    while i < |s|
      invariant i <= |s| && Fits(d) && d == Decoder(k, v, slop, d.out) && Run(d, s[i..]) == end
      invariant l == |d.out| <= ret.Length && ret[..l] == Text(d.out)
      invariant forall m :: l <= m < ret.Length ==> ret[m] == old(ret[m])
    {
      if s[i] == '=' {
        break;
      }
      assert s[i..][1..] == s[i + 1..];
      RunGrows(Step(d, s[i]), s[i + 1..]);
      var n;
      v := Lookup(s[i], v);
      assert v == Found(d.v, s[i]);
      k, slop, n := Round(k, v, slop, d);
      assert Text(d.out + n) == Text(d.out) + Text(n);
      l := PutDigits(ret, l, n);
      d := Step(d, s[i]);
      i := i + 1;
    }
    if k == 1 {
      ret[l] := HexDigit((slop << 2) as Nibble);
    }
  }

  lemma {:induction false} RunGrows(d: Decoder, s: string)
    requires Fits(d)
    ensures d.out <= Run(d, s).out
    decreases |s|
  {
    if s != "" && s[0] != '=' { RunGrows(Step(d, s[0]), s[1..]); }
  }
}
