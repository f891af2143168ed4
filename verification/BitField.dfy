/** The bits of an unsigned long long: bit_ex.c. A word is its 64 binary digits, lowest first; C's
    operators work digit by digit, and a shift by 64 or more is not defined. */
module BitField {

  const WIDTH: nat := 64

  type Word = w: seq<bool> | |w| == WIDTH witness seq(WIDTH, _ => false)

  function Zero(): Word { seq(WIDTH, _ => false) }

  /** 1 << p */
  function One(p: nat): Word { seq(WIDTH, i => i == p) }

  function ShiftRight(v: Word, p: nat): Word { seq(WIDTH, i requires i >= 0 => i + p < WIDTH && v[i + p]) }

  function ShiftLeft(v: Word, n: nat): Word { seq(WIDTH, i requires 0 <= i < WIDTH => i >= n && v[i - n]) }

  function And(v: Word, w: Word): Word { seq(WIDTH, i requires 0 <= i < WIDTH => v[i] && w[i]) }

  function Or(v: Word, w: Word): Word { seq(WIDTH, i requires 0 <= i < WIDTH => v[i] || w[i]) }

  function Not(v: Word): Word { seq(WIDTH, i requires 0 <= i < WIDTH => !v[i]) }

  /** The number some binary digits stand for, the lowest one first. */
  function Number(s: seq<bool>): nat {
    if s == [] then 0 else Digit(s[0]) + 2 * Number(s[1..])
  }

  function Digit(b: bool): nat { if b then 1 else 0 }

  function Pow2(n: nat): (r: nat)
    ensures r > 0
  {
    if n == 0 then 1 else 2 * Pow2(n - 1)
  }

  /** The n binary digits of x from position p up, by arithmetic. */
  function Part(x: nat, p: nat, n: nat): nat { (x / Pow2(p)) % Pow2(n) }

  // ----- the operations ------------------------------------------------------------

  /** ms_get_bit */
  method GetBit(value: Word, p: int) returns (r: int)
    requires p < WIDTH
    ensures p < 0 ==> r == -1
    ensures p >= 0 ==> r == Part(Number(value), p, 1) == Digit(value[p])
  {
    if p < 0 {
      return -1;
    }
    NumberField(value, p, 1);
    assert value[p..p + 1] == [value[p]] && Pow2(1) == 2 * Pow2(0);
    assert Number([value[p]]) == Digit(value[p]) + 2 * Number([]);
    if And(ShiftRight(value, p), One(0)) != Zero() {
      assert ShiftRight(value, p)[0];
      return 1;
    }
    assert !And(ShiftRight(value, p), One(0))[0];
    return 0;
  }

  /** ms_set_bit. value is the word behind the pointer, before and after. */
  method SetBit(value: Word, p: int, on: bool) returns (r: int, value': Word)
    requires p < WIDTH
    ensures p < 0 ==> r == -1 && value' == value
    ensures p >= 0 ==>
              && r == 0 && value' == value[p := on]
              && Number(value') + Digit(value[p]) * Pow2(p) == Number(value) + Digit(on) * Pow2(p)
  {
    if p < 0 {
      return -1, value;
    }
    if on {
      value' := Or(value, One(p));
    } else {
      value' := And(value, Not(One(p)));
    }
    assert value' == value[p := on];
    NumberUpdate(value, p, on);
    r := 0;
  }

  /** ms_get_bits: the n digits from position p up, as a number. */
  method GetBits(value: Word, p: int, n: int) returns (r: Word)
    requires p < WIDTH && n < WIDTH
    ensures Number(r) == if p < 0 || n < 0 then 0 else Part(Number(value), p, n)
  {
    if p < 0 || n < 0 {
      NumberZeros(WIDTH);
      return Zero();
    }
    r := And(ShiftRight(value, p), Not(ShiftLeft(Not(Zero()), n)));
    Extracted(value, p, n, r);
  }

  /** ms_printf_bits: the digits, highest first. */
  method PrintBits(value: Word) returns (text: string)
    ensures |text| == WIDTH && Spelt(text) == Number(value)
    ensures forall i :: 0 <= i < WIDTH ==> text[i] == if value[WIDTH - 1 - i] then '1' else '0'
  {
    text := "";
    var i := WIDTH;
    while i > 0
      invariant 0 <= i <= WIDTH && |text| == WIDTH - i
      invariant Spelt(text) == Number(value[i..])
      invariant forall k :: 0 <= k < |text| ==> text[k] == if value[WIDTH - 1 - k] then '1' else '0'
      decreases i
    {
      var bit := GetBit(value, i - 1);
      var c := if bit == 1 then '1' else '0';
      SpeltNext(text, c);
      NumberNext(value, i - 1);
      text := text + [c];
      i := i - 1;
    }
    assert value[0..] == value;
  }

  lemma SpeltNext(text: string, c: char)
    ensures Spelt(text + [c]) == 2 * Spelt(text) + Digit(c == '1')
  {
    assert (text + [c])[..|text|] == text;
  }

  lemma NumberNext(s: seq<bool>, i: nat)
    requires i < |s|
    ensures Number(s[i..]) == Digit(s[i]) + 2 * Number(s[i + 1..])
  {
    assert s[i..][1..] == s[i + 1..];
  }

  /** The number a text of binary digits stands for, the highest one first. */
  function Spelt(text: string): nat {
    if text == "" then 0 else 2 * Spelt(text[..|text| - 1]) + Digit(text[|text| - 1] == '1')
  }

  // ----- numbers -----------------------------------------------------------------------

  lemma {:induction false} NumberBound(s: seq<bool>)
    ensures Number(s) < Pow2(|s|)
  {
    if s == [] {
    } else {
      NumberBound(s[1..]);
    }
  }

  lemma {:induction false} NumberConcat(s: seq<bool>, t: seq<bool>)
    ensures Number(s + t) == Number(s) + Pow2(|s|) * Number(t)
  {
    if s == [] {
      assert s + t == t;
    } else {
      NumberConcat(s[1..], t);
      assert (s + t)[1..] == s[1..] + t;
      assert 2 * (Pow2(|s| - 1) * Number(t)) == Pow2(|s|) * Number(t);
    }
  }

  lemma {:induction false} NumberZeros(n: nat)
    ensures Number(seq(n, _ => false)) == 0
  {
    if n == 0 {
    } else {
      NumberZeros(n - 1);
      assert seq(n, _ => false)[1..] == seq(n - 1, _ => false);
    }
  }

  lemma DivMod(x: nat, a: nat, b: nat, m: nat)
    requires a < m && x == a + m * b
    ensures x / m == b && x % m == a
  {
    Unique(a, b, x % m, x / m, m);
  }

  lemma Unique(a: nat, b: nat, a': nat, b': nat, m: nat)
    requires a < m && a' < m && a + m * b == a' + m * b'
    ensures a == a' && b == b'
  {
    if b < b' { Larger(m, b, b'); }
    if b' < b { Larger(m, b', b); }
  }

  lemma {:induction false} Larger(m: nat, b: nat, c: nat)
    requires b < c
    ensures m * b + m <= m * c
  {
    if b + 1 < c { Larger(m, b, c - 1); }
    assert m * c == m * (c - 1) + m;
  }

  /** The digits from p up are what is left after a division. */
  lemma NumberDrop(s: seq<bool>, p: nat)
    requires p <= |s|
    ensures Number(s) / Pow2(p) == Number(s[p..]) && Number(s) % Pow2(p) == Number(s[..p])
  {
    var low, high := s[..p], s[p..];
    assert s == low + high;
    NumberConcat(low, high);
    NumberBound(low);
    DivMod(Number(s), Number(low), Number(high), Pow2(p));
  }

  lemma NumberField(s: seq<bool>, p: nat, n: nat)
    requires p + n <= |s|
    ensures Part(Number(s), p, n) == Number(s[p..p + n])
  {
    NumberDrop(s, p);
    NumberDrop(s[p..], n);
    assert s[p..][..n] == s[p..p + n];
  }

  lemma {:induction false} Pow2Grows(m: nat, n: nat)
    requires m <= n
    ensures Pow2(m) <= Pow2(n)
  {
    if m >= n {
    } else {
      Pow2Grows(m, n - 1);
    }
  }

  lemma Small(a: nat, m: nat)
    requires a < m
    ensures a % m == a
  {
  }

  /** Fewer digits than were asked for are left above p. */
  lemma NumberAbove(s: seq<bool>, p: nat, n: nat)
    requires p <= |s| <= p + n
    ensures Part(Number(s), p, n) == Number(s[p..])
  {
    NumberDrop(s, p);
    NumberBound(s[p..]);
    Pow2Grows(|s| - p, n);
    Small(Number(s[p..]), Pow2(n));
  }

  lemma NumberPadded(s: seq<bool>, n: nat)
    ensures Number(s + seq(n, _ => false)) == Number(s)
  {
    NumberConcat(s, seq(n, _ => false));
    NumberZeros(n);
  }

  lemma Extracted(value: Word, p: nat, n: nat, r: Word)
    requires p < WIDTH && n < WIDTH
    requires r == And(ShiftRight(value, p), Not(ShiftLeft(Not(Zero()), n)))
    ensures Number(r) == Part(Number(value), p, n)
  {
    if p + n <= WIDTH {
      ExtractedIs(value, p, n, n, r);
      NumberField(value, p, n);
    } else {
      ExtractedIs(value, p, n, WIDTH - p, r);
      assert value[p..WIDTH] == value[p..];
      NumberAbove(value, p, n);
    }
  }

  lemma ExtractedIs(value: Word, p: nat, n: nat, m: nat, r: Word)
    requires p < WIDTH && n < WIDTH && m == if p + n <= WIDTH then n else WIDTH - p
    requires r == And(ShiftRight(value, p), Not(ShiftLeft(Not(Zero()), n)))
    ensures Number(r) == Number(value[p..p + m])
  {
    var field := value[p..p + m];
    assert r == field + seq(WIDTH - m, _ => false);
    NumberPadded(field, WIDTH - m);
  }

  lemma NumberUpdate(s: seq<bool>, p: nat, on: bool)
    requires p < |s|
    ensures Number(s[p := on]) + Digit(s[p]) * Pow2(p) == Number(s) + Digit(on) * Pow2(p)
  {
    var t := s[p := on];
    NumberAround(s, p);
    NumberAround(t, p);
    assert t[..p] == s[..p] && t[p + 1..] == s[p + 1..];
  }

  lemma NumberAround(s: seq<bool>, p: nat)
    requires p < |s|
    ensures Number(s) == Number(s[..p]) + Digit(s[p]) * Pow2(p) + Pow2(p) * (2 * Number(s[p + 1..]))
  {
    var low, high := s[..p], s[p..];
    assert s == low + high;
    NumberConcat(low, high);
    assert high[1..] == s[p + 1..];
    Distribute(Pow2(p), Digit(s[p]), 2 * Number(s[p + 1..]), Number(high));
  }

  lemma Distribute(m: nat, d: nat, r: nat, w: nat)
    requires w == d + r
    ensures m * w == d * m + m * r
  {
  }
}
