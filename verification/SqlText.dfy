/** Text in SQL statements: translate_pwd and the loop of write_osd in msdb.c double every quote,
    and an SQL lexer reads them back. */
module SqlText {
  import opened Sequences
  import opened CText

  const QUOTE: char := '\''

  function Escape(c: char): string { if c == QUOTE then [QUOTE, QUOTE] else [c] }

  function Quoted(s: string): string {
    if s == "" then "" else Escape(s[0]) + Quoted(s[1..])
  }

  function Quotes(s: string): nat {
    if s == "" then 0 else (if s[0] == QUOTE then 1 else 0) + Quotes(s[1..])
  }

  datatype Literal = Open | Literal(value: string, rest: string)

  /** An SQL string literal behind its opening quote: it ends at the first quote that is not
      followed by another one, and two quotes in a row stand for one. */
  function Lex(s: string): Literal {
    if s == "" then Open
    else if s[0] != QUOTE then Front(s[0], Lex(s[1..]))
    else if |s| > 1 && s[1] == QUOTE then Front(QUOTE, Lex(s[2..]))
    else Literal("", s[1..])
  }

  function Front(c: char, l: Literal): Literal {
    if l.Open? then Open else Literal([c] + l.value, l.rest)
  }

  // ----- the buffers --------------------------------------------------------------

  /** The body of both loops: one character, or two quotes. */
  method PutEscaped(dst: array<char>, a: nat, c: char) returns (a': nat)
    requires a + |Escape(c)| <= dst.Length
    modifies dst
    ensures a' == a + |Escape(c)| && dst[..a'] == old(dst[..a]) + Escape(c)
    ensures forall m :: a' <= m < dst.Length ==> dst[m] == old(dst[m])
  {
    a' := a;
    if c == QUOTE {
      dst[a'] := QUOTE;
      dst[a' + 1] := QUOTE;
      a' := a' + 2;
    } else {
      dst[a'] := c;
      a' := a' + 1;
    }
  }

  /** translate_pwd. The number returned counts the terminator. */
  method TranslatePwd(dst: array<char>, src: string, len: nat) returns (a: nat)
    requires len <= |src| && |Quoted(src[..len])| < dst.Length
    modifies dst
    ensures a == |Quoted(src[..len])| + 1 && dst[..a] == Quoted(src[..len]) + ['\0']
    ensures forall m :: a <= m < dst.Length ==> dst[m] == old(dst[m])
  {
    a := 0;
    var b := 0;
    ghost var s := src[..len];
    while b < len
      invariant b <= len && a <= dst.Length && dst[..a] + Quoted(s[b..]) == Quoted(s)
      invariant forall m :: a <= m < dst.Length ==> dst[m] == old(dst[m])
    {
      assert s[b] == src[b] && s[b..][1..] == s[b + 1..];
      ConcatAssoc(dst[..a], Escape(src[b]), Quoted(s[b + 1..]));
      a := PutEscaped(dst, a, src[b]);
      b := b + 1;
    }
    assert s[b..] == "";
    dst[a] := '\0';
    a := a + 1;
    assert dst[..a] == dst[..a - 1] + ['\0'];
  }

  const OSD_NAME_SIZE: nat := 64
  const OSD_SQL_SIZE: nat := 128

  /** The name in write_osd: clipped to its own buffer, then escaped into one twice the size, which
      always has room for it. */
  method OsdName(name: string) returns (sql: array<char>)
    requires '\0' !in name
    ensures fresh(sql) && sql.Length == 128
    ensures var t := Quoted(Clip(name, 64));
            |t| < 128 && sql[..|t| + 1] == t + ['\0']
  {
    var osdName := Clip(name, OSD_NAME_SIZE);
    sql := new char[OSD_SQL_SIZE](_ => '\0');
    QuotedLength(osdName);
    var i: nat, j: nat := 0, 0;
    while i < |osdName|
      invariant i <= |osdName| && j <= 2 * i && sql[..j] + Quoted(osdName[i..]) == Quoted(osdName)
    {
      assert osdName[i..][1..] == osdName[i + 1..];
      ConcatAssoc(sql[..j], Escape(osdName[i]), Quoted(osdName[i + 1..]));
      j := PutEscaped(sql, j, osdName[i]);
      i := i + 1;
    }
    assert osdName[i..] == "";
    sql[j] := '\0';
    assert sql[..j + 1] == sql[..j] + ['\0'];
  }

  // ----- the lexer undoes the escape --------------------------------------------------

  lemma {:induction false} QuotedLength(s: string)
    ensures |Quoted(s)| == |s| + Quotes(s) <= 2 * |s|
  {
    if s == "" {
    } else {
      QuotedLength(s[1..]);
    }
  }

  lemma LexPlain(c: char, t: string)
    requires c != QUOTE
    ensures Lex([c] + t) == Front(c, Lex(t))
  {
    assert ([c] + t)[1..] == t;
  }

  lemma LexDouble(t: string)
    ensures Lex([QUOTE, QUOTE] + t) == Front(QUOTE, Lex(t))
  {
    assert ([QUOTE, QUOTE] + t)[2..] == t;
  }

  lemma LexEnd(rest: string)
    requires rest == "" || rest[0] != QUOTE
    ensures Lex([QUOTE] + rest) == Literal("", rest)
  {
    assert ([QUOTE] + rest)[1..] == rest;
  }

  /** An escaped text between quotes is read as the text, and nothing more is read. */
  lemma {:induction false} LexQuoted(s: string, rest: string)
    requires rest == "" || rest[0] != '\''
    ensures Lex(Quoted(s) + ("'" + rest)) == Literal(s, rest)
  {
    var end := [QUOTE] + rest;
    if s == "" {
      assert Quoted(s) + end == end;
      LexEnd(rest);
    } else {
      LexQuoted(s[1..], rest);
      ConcatAssoc(Escape(s[0]), Quoted(s[1..]), end);
      if s[0] == QUOTE { LexDouble(Quoted(s[1..]) + end); } else { LexPlain(s[0], Quoted(s[1..]) + end); }
      assert [s[0]] + s[1..] == s;
    }
  }

  /** A text that is put between quotes as it is, as insert_osd does, is read back as the text
      exactly when there is no quote in it. */
  lemma {:induction false} LexRawIff(s: string, rest: string)
    requires rest == "" || rest[0] != '\''
    ensures Lex(s + ("'" + rest)) == Literal(s, rest) <==> '\'' !in s
  {
    var end := [QUOTE] + rest;
    if s == "" {
      assert s + end == end;
      LexEnd(rest);
    } else {
      assert s + end == [s[0]] + (s[1..] + end);
      if s[0] != QUOTE {
        LexPlain(s[0], s[1..] + end);
        LexRawIff(s[1..], rest);
        assert [s[0]] + s[1..] == s;
        assert QUOTE in s <==> QUOTE in s[1..];
      } else {
        LexShort(s + end);
      }
    }
  }

  /** A literal and what follows it account for every character, a doubled quote for two. */
  lemma {:induction false} LexShort(t: string)
    ensures Lex(t).Literal? ==> |t| == |Lex(t).value| + Quotes(Lex(t).value) + 1 + |Lex(t).rest|
    decreases |t|
  {
    if t == "" {
    } else {
      if t[0] != QUOTE { LexShort(t[1..]); FrontQuotes(t[0], Lex(t[1..])); }
      else if |t| > 1 && t[1] == QUOTE { LexShort(t[2..]); FrontQuotes(QUOTE, Lex(t[2..])); }
    }
  }

  lemma FrontQuotes(c: char, l: Literal)
    ensures l.Literal? ==> Quotes([c] + l.value) == Quotes(l.value) + if c == QUOTE then 1 else 0
  {
  }
}
