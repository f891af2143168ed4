/** ms_base64_encode and ms_base64_decode of string.c. */
module Base64 {
  import opened Sequences
  import opened Base64Table

  // ----- the four sextets of three bytes, and back ------------------------------

  function Sextet0(a: bv8): bv8 { (a >> 2) & 0x3F }
  function Sextet1(a: bv8, b: bv8): bv8 { ((a << 4) & 0x30) | ((b >> 4) & 0x0F) }
  function Sextet2(b: bv8, c: bv8): bv8 { ((b << 2) & 0x3C) | ((c >> 6) & 0x03) }
  function Sextet3(c: bv8): bv8 { c & 0x3F }

  function Byte0(s: bv8, t: bv8): bv8 { ((s << 2) & 0xFC) | ((t >> 4) & 0x03) }
  function Byte1(t: bv8, u: bv8): bv8 { ((t << 4) & 0xF0) | ((u >> 2) & 0x0F) }
  function Byte2(u: bv8, v: bv8): bv8 { ((u << 6) & 0xF0) | (v & 0x3F) }

  lemma SextetRange(a: bv8, b: bv8)
    ensures Sextet0(a) < 64 && Sextet1(a, b) < 64 && Sextet2(a, b) < 64 && Sextet3(a) < 64
  {
  }

  /** Sextets whose second byte is still missing. */
  lemma HalfSextets(a: bv8)
    ensures (a << 4) & 0x30 == Sextet1(a, 0) && (a << 2) & 0x3C == Sextet2(a, 0)
  {
  }

  lemma BytesOfSextets(a: bv8, b: bv8, c: bv8)
    ensures Byte0(Sextet0(a), Sextet1(a, b)) == a
    ensures Byte1(Sextet1(a, b), Sextet2(b, c)) == b
    ensures Byte2(Sextet2(b, c), Sextet3(c)) == c
  {
  }

  lemma SextetsOfBytes(s: bv8, t: bv8, u: bv8, v: bv8)
    requires s < 64 && t < 64 && u < 64 && v < 64
    ensures Sextet0(Byte0(s, t)) == s
    ensures Sextet1(Byte0(s, t), Byte1(t, u)) == t
    ensures Sextet2(Byte1(t, u), Byte2(u, v)) == u
    ensures Sextet3(Byte2(u, v)) == v
    ensures t & 0x0F == 0 <==> Sextet1(Byte0(s, t), 0) == t
    ensures u & 0x03 == 0 <==> Sextet2(Byte1(t, u), 0) == u
  {
  }

  // ----- encoding ---------------------------------------------------------------

  /** The four characters for one, two or three bytes. */
  function EncodeBlock(b: seq<bv8>): (text: string)
    requires 1 <= |b| <= 3
    ensures |text| == 4
  {
    if |b| == 1 then
      SextetRange(b[0], 0);
      [CharOf(Sextet0(b[0])), CharOf(Sextet1(b[0], 0)), '=', '=']
    else if |b| == 2 then
      SextetRange(b[0], b[1]); SextetRange(b[1], 0);
      [CharOf(Sextet0(b[0])), CharOf(Sextet1(b[0], b[1])), CharOf(Sextet2(b[1], 0)), '=']
    else
      SextetRange(b[0], b[1]); SextetRange(b[1], b[2]); SextetRange(b[2], 0);
      [CharOf(Sextet0(b[0])), CharOf(Sextet1(b[0], b[1])), CharOf(Sextet2(b[1], b[2])), CharOf(Sextet3(b[2]))]
  }

  function Encode(x: seq<bv8>): (text: string)
    ensures |text| == (|x| + 2) / 3 * 4
  {
    if |x| == 0 then ""
    else if |x| <= 3 then EncodeBlock(x)
    else EncodeBlock(x[..3]) + Encode(x[3..])
  }

  lemma EncodeNext(x: seq<bv8>, i: nat)
    requires i < |x|
    ensures var e := Min(i + 3, |x|);
            Encode(x[i..]) == EncodeBlock(x[i..e]) + Encode(x[e..])
  {
    var y := x[i..];
    var e := Min(i + 3, |x|);
    if |y| <= 3 {
      assert x[i..e] == y;
      assert x[e..] == [];
    } else {
      assert x[i..e] == y[..3] && x[e..] == y[3..];
    }
  }

  lemma SliceOfPrefix<T>(s: seq<T>, n: nat, i: nat, e: nat)
    requires i <= e <= n <= |s|
    ensures s[..n][i..e] == s[i..e]
  {
  }

  /** to[j++] = c0; to[j++] = c1; to[j++] = c2; to[j++] = c3; */
  method PutFour(to: array<char>, j: nat, c0: char, c1: char, c2: char, c3: char) returns (k: nat)
    requires j + 4 <= to.Length
    modifies to
    ensures k == j + 4 && to[..k] == old(to[..j]) + [c0, c1, c2, c3]
    ensures forall m :: k <= m < to.Length ==> to[m] == old(to[m])
  {
    to[j] := c0;
    to[j + 1] := c1;
    to[j + 2] := c2;
    to[j + 3] := c3;
    k := j + 4;
  }

  /** One round of the loop of ms_base64_encode: three bytes, or what is left of them. */
  method EncodeRound(from: seq<bv8>, to: array<char>, len: int, i: nat, j: nat) returns (k: nat, stop: bool)
    requires i < len <= |from| && j + 4 <= to.Length
    modifies to
    ensures k == j + 4 && stop == (i + 2 >= len)
    ensures to[..k] == old(to[..j]) + EncodeBlock(from[i..Min(i + 3, len)])
    ensures forall m :: k <= m < to.Length ==> to[m] == old(to[m])
  {
    var current := from[i] >> 2;
    current := current & 0x3F;
    assert current == Sextet0(from[i]);
    var c0 := CharOf(current);
    current := (from[i] << 4) & 0x30;
    if i + 1 >= len {
      assert from[i..len] == [from[i]];
      HalfSextets(from[i]);
      k := PutFour(to, j, c0, CharOf(current), '=', '=');
      return k, true;
    }
    current := current | ((from[i + 1] >> 4) & 0x0F);
    assert current == Sextet1(from[i], from[i + 1]);
    SextetRange(from[i], from[i + 1]);
    var c1 := CharOf(current);
    current := (from[i + 1] << 2) & 0x3C;
    if i + 2 >= len {
      assert from[i..len] == [from[i], from[i + 1]];
      HalfSextets(from[i + 1]);
      k := PutFour(to, j, c0, c1, CharOf(current), '=');
      return k, true;
    }
    current := current | ((from[i + 2] >> 6) & 0x03);
    assert current == Sextet2(from[i + 1], from[i + 2]);
    SextetRange(from[i + 1], from[i + 2]);
    var c2 := CharOf(current);
    current := from[i + 2] & 0x3F;
    assert current == Sextet3(from[i + 2]);
    assert from[i..i + 3] == [from[i], from[i + 1], from[i + 2]];
    k := PutFour(to, j, c0, c1, c2, CharOf(current));
    return k, false;
  }

  /** ms_base64_encode. Everything behind the terminator is left as it was. */
  method EncodeBuffer(from: seq<bv8>, to: array<char>, len: nat)
    requires len <= |from|
    requires to.Length > |Encode(from[..len])|
    modifies to
    ensures var text := Encode(from[..len]);
            && to[..|text| + 1] == text + ['\0']
            && forall m :: |text| < m < to.Length ==> to[m] == old(to[m])
  {
    var i, j, stop := 0, 0, false;
    ghost var x := from[..len];
    ghost var e := 0;
    while i < len && !stop
      invariant 0 <= i && e == Min(i, len) && (stop ==> e == len)
      invariant j + |Encode(x[e..])| == |Encode(x)| && to[..j] + Encode(x[e..]) == Encode(x)
      invariant forall m :: j <= m < to.Length ==> to[m] == old(to[m])
      decreases !stop, len - i
    {
      EncodeNext(x, i);
      e := Min(i + 3, len);
      SliceOfPrefix(from, len, i, e);
      ConcatAssoc(to[..j], EncodeBlock(x[i..e]), Encode(x[e..]));
      j, stop := EncodeRound(from, to, len, i, j);
      i := i + 3;
    }
    assert x[e..] == [];
    to[j] := '\0';
    assert to[..j] == Encode(x);
  }

  // ----- decoding ---------------------------------------------------------------

  /** A block of text that ends the decoding. */
  predicate Padded(b: string)
    requires |b| == 4
  {
    b[2] == '=' || b[3] == '='
  }

  /** What four characters decode to; a character outside the alphabet counts as 0xFF. */
  function DecodeBlock(b: string): (r: seq<bv8>)
    requires |b| == 4
    ensures 1 <= |r| <= 3 && (|r| < 3 <==> Padded(b))
  {
    var t0, t1, t2, t3 := Index(b[0]), Index(b[1]), Index(b[2]), Index(b[3]);
    if b[2] == '=' then [Byte0(t0, t1)]
    else if b[3] == '=' then [Byte0(t0, t1), Byte1(t1, t2)]
    else [Byte0(t0, t1), Byte1(t1, t2), Byte2(t2, t3)]
  }

  /** What a text of whole blocks decodes to, when the buffer is large enough. */
  function Decode(s: string): seq<bv8> {
    if |s| < 4 then []
    else if Padded(s[..4]) then DecodeBlock(s[..4])
    else DecodeBlock(s[..4]) + Decode(s[4..])
  }

  /** What fits into a buffer of len bytes, with room for a terminator. A length below 1 is no
      limit: the index is only compared with len - 1 for equality. */
  function Limit<T>(x: seq<T>, len: int): (r: seq<T>)
    ensures r <= x && (len >= 1 ==> |r| <= len - 1)
  {
    if 1 <= len <= |x| then x[..len - 1] else x
  }

  /** How many of the n bytes of a block are stored when j bytes are in the buffer already. */
  function Stored(n: nat, len: int, j: nat): nat {
    if len < 1 || n <= len - 1 - j then n else if j <= len - 1 then len - 1 - j else 0
  }

  lemma Snoc<T>(p: seq<T>, b: seq<T>, n: nat)
    requires n < |b|
    ensures (p + b[..n]) + [b[n]] == p + b[..n + 1]
  {
  }

  /** bindata[j++] = byte, for byte number n of block b, which is stored behind p. */
  method Store(bindata: array<bv8>, byte: bv8, len: int, j: nat, ghost p: seq<bv8>, ghost b: seq<bv8>, ghost n: nat)
    returns (k: nat, full: bool)
    requires j < bindata.Length && n < |b| && b[n] == byte
    requires bindata[..j] == p + b[..n]
    modifies bindata
    ensures k == j + 1 && full == (k == len - 1)
    ensures bindata[..k] == p + b[..n + 1]
    ensures forall m :: k <= m < bindata.Length ==> bindata[m] == old(bindata[m])
  {
    Snoc(p, b, n);
    bindata[j] := byte;
    k := j + 1;
    assert bindata[..k] == old(bindata[..j]) + [byte];
    full := k == len - 1;
  }

  /** The searches for four characters, and the bytes they make. Which of them are stored is
      for the padding to say. */
  method BlockBytes(base64: string, i: nat) returns (b0: bv8, b1: bv8, b2: bv8)
    requires i + 4 <= |base64|
    ensures DecodeBlock(base64[i..i + 4])
            == if base64[i + 2] == '=' then [b0] else if base64[i + 3] == '=' then [b0, b1] else [b0, b1, b2]
    ensures Padded(base64[i..i + 4]) == (base64[i + 2] == '=' || base64[i + 3] == '=')
  {
    assert base64[i..i + 4] == [base64[i], base64[i + 1], base64[i + 2], base64[i + 3]];
    var temp0 := LookupFresh(base64[i]);
    var temp1 := LookupFresh(base64[i + 1]);
    var temp2 := LookupFresh(base64[i + 2]);
    var temp3 := LookupFresh(base64[i + 3]);
    b0 := ((temp0 << 2) & 0xFC) | ((temp1 >> 4) & 0x03);
    b1 := ((temp1 << 4) & 0xF0) | ((temp2 >> 2) & 0x0F);
    b2 := ((temp2 << 6) & 0xF0) | (temp3 & 0x3F);
    assert b0 == Byte0(temp0, temp1) && b1 == Byte1(temp1, temp2) && b2 == Byte2(temp2, temp3);
  }

  /** One round of the loop of ms_base64_decode: four characters. */
  method DecodeRound(base64: string, i: nat, bindata: array<bv8>, len: int, j: nat) returns (k: nat, stop: bool)
    requires i + 4 <= |base64| && (len >= 1 ==> j <= len - 1)
    requires j + Stored(|DecodeBlock(base64[i..i + 4])|, len, j) <= bindata.Length
    modifies bindata
    ensures var b := DecodeBlock(base64[i..i + 4]);
            && k == j + Stored(|b|, len, j)
            && stop == (Padded(base64[i..i + 4]) || k == len - 1)
            && bindata[..k] == old(bindata[..j]) + b[..k - j]
    ensures forall m :: k <= m < bindata.Length ==> bindata[m] == old(bindata[m])
  {
    var b0, b1, b2 := BlockBytes(base64, i);
    ghost var p, b := bindata[..j], DecodeBlock(base64[i..i + 4]);
    k := j;
    assert p + b[..0] == p;
    if k == len - 1 {
      return k, true;
    }
    k, stop := Store(bindata, b0, len, k, p, b, 0);
    if stop || base64[i + 2] == '=' {
      return k, true;
    }
    k, stop := Store(bindata, b1, len, k, p, b, 1);
    if stop || base64[i + 3] == '=' {
      return k, true;
    }
    k, stop := Store(bindata, b2, len, k, p, b, 2);
  }

  lemma DecodeNext(s: string, i: nat)
    requires i + 4 <= |s|
    ensures var b := DecodeBlock(s[i..i + 4]);
            Decode(s[i..]) == if Padded(s[i..i + 4]) then b else b + Decode(s[i + 4..])
  {
    assert s[i..][..4] == s[i..i + 4] && s[i..][4..] == s[i + 4..];
  }

  lemma TakeMore<T>(before: seq<T>, rest: seq<T>, n: nat)
    requires n <= |rest|
    ensures before + rest == (before + rest[..n]) + rest[n..]
  {
  }

  lemma LimitRoom<T>(before: seq<T>, rest: seq<T>, len: int, b: seq<T>)
    requires b <= rest && (len >= 1 ==> |before| <= len - 1)
    ensures |before| + Stored(|b|, len, |before|) <= |Limit(before + rest, len)|
  {
  }

  /** A round of decoding, seen from the whole text: rest is what the text from i on decodes to,
      and left what is still missing afterwards. */
  method DecodeStep(base64: string, i: nat, bindata: array<bv8>, len: int, j: nat, ghost rest: seq<bv8>)
    returns (k: nat, stop: bool, ghost left: seq<bv8>)
    requires i + 4 <= |base64| && (len >= 1 ==> j <= len - 1)
    requires j <= bindata.Length && rest == Decode(base64[i..])
    requires |Limit(bindata[..j] + rest, len)| <= bindata.Length
    modifies bindata
    ensures j <= k <= bindata.Length && (len >= 1 ==> k <= len - 1)
    ensures bindata[..k] + left == old(bindata[..j]) + rest
    ensures if stop then left == [] || k == len - 1 else left == Decode(base64[i + 4..])
    ensures forall m :: k <= m < bindata.Length ==> bindata[m] == old(bindata[m])
  {
    ghost var before := bindata[..j];
    ghost var b := DecodeBlock(base64[i..i + 4]);
    ghost var n := Stored(|b|, len, j);
    left := StepFacts(base64, i, len, before, rest);
    k, stop := DecodeRound(base64, i, bindata, len, j);
    assert k == j + n && bindata[..k] == before + b[..n];
  }

  lemma StepFacts(base64: string, i: nat, len: int, before: seq<bv8>, rest: seq<bv8>) returns (left: seq<bv8>)
    requires i + 4 <= |base64| && (len >= 1 ==> |before| <= len - 1) && rest == Decode(base64[i..])
    ensures var b := DecodeBlock(base64[i..i + 4]);
            var n := Stored(|b|, len, |before|);
            && |before| + n <= |Limit(before + rest, len)|
            && (before + b[..n]) + left == before + rest
            && (if Padded(base64[i..i + 4]) then left == [] || |before| + n == len - 1
                else left == Decode(base64[i + 4..]) || |before| + n == len - 1)
  {
    DecodeNext(base64, i);
    var b := DecodeBlock(base64[i..i + 4]);
    var n := Stored(|b|, len, |before|);
    LimitRoom(before, rest, len, b);
    TakeMore(before, rest, n);
    assert rest[..n] == b[..n];
    left := rest[n..];
  }

  /** ms_base64_decode, on a C string without its terminator. Nothing behind what is returned is
      written: with len >= 1, nothing at len - 1 or later. */
  method DecodeBuffer(base64: string, bindata: array<bv8>, len: int) returns (j: nat)
    requires |base64| % 4 == 0 && '\0' !in base64
    requires |Limit(Decode(base64), len)| <= bindata.Length
    modifies bindata
    ensures j <= bindata.Length && bindata[..j] == Limit(Decode(base64), len)
    ensures forall m :: j <= m < bindata.Length ==> bindata[m] == old(bindata[m])
  {
    var i, stop := 0, false;
    j := 0;
    ghost var rest := Decode(base64);
    ghost var q, blocks := 0, |base64| / 4;
    assert base64[0..] == base64;
    while i < |base64| && !stop
      invariant i == 4 * q <= |base64| == 4 * blocks
      invariant j <= bindata.Length && (len >= 1 ==> j <= len - 1)
      invariant bindata[..j] + rest == Decode(base64)
      invariant if stop then rest == [] || j == len - 1 else rest == Decode(base64[i..])
      invariant forall m :: j <= m < bindata.Length ==> bindata[m] == old(bindata[m])
      decreases !stop, |base64| - i
    {
      assert q < blocks;
      j, stop, rest := DecodeStep(base64, i, bindata, len, j, rest);
      i, q := i + 4, q + 1;
    }
  }
}
