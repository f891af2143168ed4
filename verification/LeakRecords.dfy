/** The contents of the leak tracker, as a sequence of records in list order, and what the
    three list operations of memory.c do to it. */
module LeakRecords {
  import opened CText

  type Address = nat

  /** struct mem_info */
  datatype MemInfo = MemInfo(address: Address, size: nat, line: int, file: string, time: string)

  const FILE_SIZE: nat := 32

  /** The records without the first one that holds address a. */
  function RemoveFirst(s: seq<MemInfo>, a: Address): seq<MemInfo> {
    if s == [] then []
    else if s[0].address == a then s[1..]
    else [s[0]] + RemoveFirst(s[1..], a)
  }

  /** The records after the first one that holds address a was handed over to address b.
      The size of the record stays as it was. */
  function ReplaceFirst(s: seq<MemInfo>, a: Address, b: Address, file: string, line: int): seq<MemInfo> {
    if s == [] then []
    else if s[0].address == a then [s[0].(address := b, file := Clip(file, FILE_SIZE), line := line)] + s[1..]
    else [s[0]] + ReplaceFirst(s[1..], a, b, file, line)
  }

  ghost predicate FirstAt(s: seq<MemInfo>, a: Address, i: nat) {
    i < |s| && s[i].address == a && forall j :: 0 <= j < i ==> s[j].address != a
  }

  ghost predicate Absent(s: seq<MemInfo>, a: Address) {
    forall j :: 0 <= j < |s| ==> s[j].address != a
  }

  /** How many records hold address a. */
  ghost function Occurrences(s: seq<MemInfo>, a: Address): nat {
    if s == [] then 0 else (if s[0].address == a then 1 else 0) + Occurrences(s[1..], a)
  }

  // ----- by index ------------------------------------------------------------

  lemma {:induction false} RemoveFirstAt(s: seq<MemInfo>, a: Address, i: nat)
    requires FirstAt(s, a, i)
    ensures RemoveFirst(s, a) == s[..i] + s[i + 1..]
  {
    if i == 0 {
    } else {
      RemoveFirstAt(s[1..], a, i - 1);
      assert [s[0]] + (s[1..][..i - 1] + s[1..][i..]) == s[..i] + s[i + 1..];
    }
  }

  lemma {:induction false} ReplaceFirstAt(s: seq<MemInfo>, a: Address, b: Address, file: string, line: int, i: nat)
    requires FirstAt(s, a, i)
    ensures ReplaceFirst(s, a, b, file, line)
            == s[i := s[i].(address := b, file := Clip(file, FILE_SIZE), line := line)]
  {
    if i > 0 {
      ReplaceFirstAt(s[1..], a, b, file, line, i - 1);
      assert [s[0]] + s[1..] == s;
    } else {
      assert s == [s[0]] + s[1..];
    }
  }

  lemma {:induction false} AbsentUnchanged(s: seq<MemInfo>, a: Address, b: Address, file: string, line: int)
    requires Absent(s, a)
    ensures RemoveFirst(s, a) == s
    ensures ReplaceFirst(s, a, b, file, line) == s
  {
    if s == [] {
    } else {
      AbsentUnchanged(s[1..], a, b, file, line);
      assert [s[0]] + s[1..] == s;
    }
  }

  // ----- by address ----------------------------------------------------------

  lemma {:induction false} OccurrencesAbsent(s: seq<MemInfo>, a: Address)
    ensures Occurrences(s, a) == 0 <==> Absent(s, a)
  {
    if s == [] {
    } else {
      OccurrencesAbsent(s[1..], a);
      if Absent(s[1..], a) && s[0].address != a {
        forall j | 0 <= j < |s| ensures s[j].address != a {
          if j > 0 { assert s[j] == s[1..][j - 1]; }
        }
      }
      if Absent(s, a) {
        forall j | 0 <= j < |s[1..]| ensures s[1..][j].address != a { assert s[1..][j] == s[j + 1]; }
      }
    }
  }

  lemma {:induction false} OccurrencesAppend(s: seq<MemInfo>, m: MemInfo, c: Address)
    ensures Occurrences(s + [m], c) == Occurrences(s, c) + if m.address == c then 1 else 0
  {
    if s == [] {
      assert s + [m] == [m];
    } else {
      OccurrencesAppend(s[1..], m, c);
      assert (s + [m])[1..] == s[1..] + [m];
    }
  }

  lemma {:induction false} OccurrencesRemoveFirst(s: seq<MemInfo>, a: Address, c: Address)
    ensures Occurrences(RemoveFirst(s, a), c)
            == if c == a && !Absent(s, a) then Occurrences(s, c) - 1 else Occurrences(s, c)
  {
    OccurrencesAbsent(s, a);
    if s != [] && s[0].address != a {
      OccurrencesAbsent(s[1..], a);
      OccurrencesRemoveFirst(s[1..], a, c);
      assert ([s[0]] + RemoveFirst(s[1..], a))[1..] == RemoveFirst(s[1..], a);
    }
  }

  lemma {:induction false} OccurrencesReplaceFirst(s: seq<MemInfo>, a: Address, b: Address, file: string, line: int,
                                                   c: Address)
    ensures Occurrences(ReplaceFirst(s, a, b, file, line), c)
            == if Absent(s, a) then Occurrences(s, c)
               else Occurrences(s, c) - (if c == a then 1 else 0) + (if c == b then 1 else 0)
  {
    OccurrencesAbsent(s, a);
    if s == [] {
    } else {
      var r := s[0].(address := b, file := Clip(file, FILE_SIZE), line := line);
      if s[0].address == a {
        assert ([r] + s[1..])[1..] == s[1..];
      } else {
        OccurrencesAbsent(s[1..], a);
        OccurrencesReplaceFirst(s[1..], a, b, file, line, c);
        var t := ReplaceFirst(s[1..], a, b, file, line);
        assert ([s[0]] + t)[1..] == t;
      }
    }
  }

  /** Records that hold every address of a set once, and no other, are as many as the set. */
  lemma {:induction false} OccurrencesOnce(s: seq<MemInfo>, live: set<Address>)
    requires forall a :: Occurrences(s, a) == if a in live then 1 else 0
    ensures |s| == |live|
  {
    if s == [] {
      forall a ensures a !in live { assert Occurrences(s, a) == 0; }
    } else {
      var a := s[0].address;
      assert Occurrences(s, a) == 1;
      var rest := live - {a};
      forall b ensures Occurrences(s[1..], b) == if b in rest then 1 else 0 {
        assert Occurrences(s, b) == if b in live then 1 else 0;
      }
      OccurrencesOnce(s[1..], rest);
    }
  }
}
