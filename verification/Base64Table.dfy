/** The base64 alphabet of string.c, and the search through it. */
module Base64Table {

  /** base64chars: table 1 of RFC 4648, section 4. */
  const BASE64_CHARS: string := "ABCDEFGHIJKLMNOPQRSTUVWXYZ" + "abcdefghijklmnopqrstuvwxyz" + "0123456789+/"

  const NO_INDEX: bv8 := 0xFF

  /** The character at place k, by ranges: the form the proofs use. */
  function CharAt(k: nat): char
    requires k < 64
  {
    if k < 26 then ('A' as int + k) as char
    else if k < 52 then ('a' as int + k - 26) as char
    else if k < 62 then ('0' as int + k - 52) as char
    else if k == 62 then '+'
    else '/'
  }

  lemma UpperAt(k: nat)
    requires k < 26
    ensures "ABCDEFGHIJKLMNOPQRSTUVWXYZ"[k] == CharAt(k)
  {
  }

  lemma LowerAt(k: nat)
    requires k < 26
    ensures "abcdefghijklmnopqrstuvwxyz"[k] == CharAt(k + 26)
  {
  }

  lemma OtherAt(k: nat)
    requires k < 12
    ensures "0123456789+/"[k] == CharAt(k + 52)
  {
  }

  lemma TableParts<T>(a: seq<T>, b: seq<T>, c: seq<T>, k: nat)
    requires k < |a| + |b| + |c|
    ensures (a + b + c)[k] == if k < |a| then a[k] else if k < |a| + |b| then b[k - |a|] else c[k - |a| - |b|]
  {
  }

  /** The ranges are the table. */
  lemma CharAtIsTable(k: nat)
    requires k < 64
    ensures |BASE64_CHARS| == 64 && BASE64_CHARS[k] == CharAt(k)
  {
    TableParts("ABCDEFGHIJKLMNOPQRSTUVWXYZ", "abcdefghijklmnopqrstuvwxyz", "0123456789+/", k);
    if k < 26 { UpperAt(k); } else if k < 52 { LowerAt(k - 26); } else { OtherAt(k - 52); }
  }

  function CharOf(v: bv8): char
    requires v < 64
  {
    CharAt(v as int)
  }

  /** The last of the first n places of the alphabet that hold c. */
  function LastMatch(c: char, n: nat): bv8
    requires n <= 64
  {
    if n == 0 then NO_INDEX
    else if CharAt(n - 1) == c then (n - 1) as bv8
    else LastMatch(c, n - 1)
  }

  function Size(): (n: nat)
    ensures n == 64
  {
    |BASE64_CHARS|
  }

  function Index(c: char): bv8 {
    LastMatch(c, Size())
  }

  lemma {:induction false} LastMatchHit(k: nat, n: nat)
    requires k < n <= 64
    ensures LastMatch(CharAt(k), n) == k as bv8
  {
    if k < n - 1 { LastMatchHit(k, n - 1); }
  }

  lemma PlaceAsIndex(k: nat)
    requires k < 64
    ensures k as bv8 < 64 && (k as bv8) as int == k
  {
  }

  lemma {:induction false} LastMatchRange(c: char, n: nat)
    requires n <= 64
    ensures LastMatch(c, n) == NO_INDEX || (LastMatch(c, n) < 64 && CharOf(LastMatch(c, n)) == c)
  {
    if n == 0 {
    } else {
      PlaceAsIndex(n - 1);
      LastMatchRange(c, n - 1);
    }
  }

  /** for ( k = 0 ; k < 64 ; k ++ ) if ( base64chars[k] == c ) temp = k;
      The last place that holds c wins, and without one the old value stays. */
  method Lookup(c: char, before: bv8) returns (temp: bv8)
    ensures temp == if Index(c) == NO_INDEX then before else Index(c)
  {
    temp := before;
    var k := 0;
    while k < 64
      invariant k <= 64
      invariant temp == if LastMatch(c, k) == NO_INDEX then before else LastMatch(c, k)
    {
      LastMatchRange(c, k);
      CharAtIsTable(k);
      if BASE64_CHARS[k] == c {
        PlaceAsIndex(k);
        temp := k as bv8;
      }
      k := k + 1;
    }
  }

  /** The search in ms_base64_decode, after temp was set to 0xFF. */
  method LookupFresh(c: char) returns (temp: bv8)
    ensures temp == Index(c)
  {
    temp := Lookup(c, NO_INDEX);
  }

  /** The search inverts the table: no two places hold the same character. */
  lemma IndexOfChar(v: bv8)
    requires v < 64
    ensures Index(CharOf(v)) == v
  {
    LastMatchHit(v as int, 64);
  }

  lemma CharOfIndex(c: char)
    ensures Index(c) == NO_INDEX || (Index(c) < 64 && CharOf(Index(c)) == c)
  {
    LastMatchRange(c, 64);
  }

  /** The table has the characters that are found, and no other. */
  lemma InTable(c: char)
    requires c in BASE64_CHARS
    ensures Index(c) < 64 && c != '='
  {
    CharAtIsTable(0);
    var k :| 0 <= k < |BASE64_CHARS| && BASE64_CHARS[k] == c;
    CharAtIsTable(k);
    LastMatchHit(k, 64);
    PlaceAsIndex(k);
    CharOfIndex('=');
  }

  lemma OutsideTable(c: char)
    requires c !in BASE64_CHARS
    ensures Index(c) == 0xFF
  {
    CharAtIsTable(0);
    CharOfIndex(c);
    if Index(c) != NO_INDEX { CharAtIsTable(Index(c) as int); }
  }

  /** Only the zero sextet is written 'A', and none is written '='. */
  lemma CharOfZero(v: bv8)
    requires v < 64
    ensures CharOf(v) == 'A' <==> v == 0
    ensures CharOf(v) != '='
  {
    IndexOfChar(v);
    IndexOfChar(0);
  }
}
