/** The retry loops of ccsqlite.c, against a stream of what SQLite answers. The stream is finite: a
    call that is still waiting when it ends has no result yet. */
module SqliteRetry {

  const SQLITE_OPT_CNT: nat := 200

  /** An answer of sqlite3_exec: success, or a failure with or without an error message. Messages
      are numbered by the memory they are in; locked says that the text has "database is locked". */
  datatype Answer = Ok | Failed(msg: int, locked: bool)

  datatype Result = Waiting | Done(code: int)

  /** The call goes on after the first n answers: none was a success, and none from the 200th on
      was anything else than "locked". */
  ghost predicate GoesOn(s: seq<Answer>, n: nat)
    requires n <= |s|
  {
    forall i :: 0 <= i < n ==> s[i].Failed? && (i + 1 >= SQLITE_OPT_CNT ==> s[i].msg != 0 && s[i].locked)
  }

  /** The messages among some answers, in order. */
  function Messages(s: seq<Answer>): seq<int> {
    if s == [] then []
    else Messages(s[..|s| - 1]) + (if s[|s| - 1].Failed? && s[|s| - 1].msg != 0 then [s[|s| - 1].msg] else [])
  }

  /** Which of the first n answers had message m. */
  ghost function With(s: seq<Answer>, n: nat, m: int): set<nat>
    requires n <= |s|
  {
    set i: nat | i < n && s[i].Failed? && s[i].msg == m
  }

  lemma WithNext(s: seq<Answer>, n: nat, m: int)
    requires n < |s|
    ensures |With(s, n + 1, m)| == |With(s, n, m)| + if s[n].Failed? && s[n].msg == m then 1 else 0
  {
    assert With(s, n + 1, m) == With(s, n, m) + if s[n].Failed? && s[n].msg == m then {n} else {};
  }

  lemma {:induction false} MessagesCount(s: seq<Answer>, n: nat, m: int)
    requires n <= |s| && m != 0
    ensures multiset(Messages(s[..n]))[m] == |With(s, n, m)| && 0 !in Messages(s[..n])
  {
    if n == 0 {
      assert With(s, 0, m) == {};
    } else {
      MessagesCount(s, n - 1, m);
      WithNext(s, n - 1, m);
      assert s[..n][..n - 1] == s[..n - 1];
    }
  }

  /** The loop of sqlite_execute. */
  method Attempts(s: seq<Answer>) returns (r: Result, used: nat, freed: seq<int>)
    ensures used <= |s| && freed == Messages(s[..used])
    ensures match r
            case Waiting => used == |s| && GoesOn(s, used)
            case Done(code) =>
              used > 0 && GoesOn(s, used - 1)
              && if s[used - 1].Ok? then code == 0
                 else code == -1 && used >= SQLITE_OPT_CNT && (s[used - 1].msg == 0 || !s[used - 1].locked)
  {
    var count := 0;
    used, freed := 0, [];
    while used < |s| && s[used].Failed?
      invariant used <= |s| && count == used && GoesOn(s, used)
      invariant freed == Messages(s[..used])
      decreases |s| - used
    {
      var a := s[used];
      assert s[..used + 1][..used] == s[..used];
      used := used + 1;
      count := count + 1;
      if count >= SQLITE_OPT_CNT {
        if a.msg != 0 {
          if a.locked {
            freed := freed + [a.msg];
            continue;
          }
        }
        if a.msg != 0 {
          freed := freed + [a.msg];
        }
        return Done(-1), used, freed;
      }
      if a.msg != 0 {
        freed := freed + [a.msg];
      }
    }
    if used == |s| {
      return Waiting, used, freed;
    }
    assert s[..used + 1][..used] == s[..used];
    return Done(0), used + 1, freed;
  }

  /** sqlite_execute. used is how many answers were taken, freed the messages handed to
      sqlite3_free: each message as often as it came. */
  method Execute(s: seq<Answer>) returns (r: Result, used: nat, freed: seq<int>)
    ensures used <= |s|
    ensures forall m :: m != 0 ==> multiset(freed)[m] == |set i: nat | i < used && s[i].Failed? && s[i].msg == m|
    ensures 0 !in freed && freed == Messages(s[..used])
    ensures forall i :: 0 <= i < used - 1 ==> s[i].Failed? && (i >= 199 ==> s[i].msg != 0 && s[i].locked)
    ensures match r
            case Waiting =>
              used == |s| && (used > 0 ==> s[used - 1].Failed?)
              && (used >= 200 ==> s[used - 1].msg != 0 && s[used - 1].locked)
            case Done(code) =>
              used > 0
              && if s[used - 1].Ok? then code == 0
                 else code == -1 && used >= 200 && (s[used - 1].msg == 0 || !s[used - 1].locked)
    ensures r == Waiting <==> GoesOn(s, |s|)
    ensures r == Done(0) <==> exists n :: 0 <= n < |s| && GoesOn(s, n) && s[n].Ok?
    ensures r == Done(-1) <==> exists n :: 0 <= n < |s| && GoesOn(s, n) && n + 1 >= SQLITE_OPT_CNT && s[n].Failed?
                                           && (s[n].msg == 0 || !s[n].locked)
  {
    r, used, freed := Attempts(s);
    forall m | m != 0 ensures multiset(freed)[m] == |With(s, used, m)| { MessagesCount(s, used, m); }
    MessagesCount(s, used, 1);
  }

  /** An answer of sqlite3_step. */
  datatype StepAnswer = RowReady | NoMore | Error(code: int)

  const FAILED: int := -1
  const NO_MORE: int := 1

  /** sqlite_query_record. prepares says of each sqlite3_prepare_v2 whether it succeeded, steps
      what each sqlite3_step answered; errors of a step are never the code of success. */
  method QueryRecord(prepares: seq<bool>, steps: seq<StepAnswer>) returns (ret: int, prepared: nat, stepped: nat)
    requires |prepares| >= 200 && |steps| >= 200
    requires forall i :: 0 <= i < |steps| && steps[i].Error? ==> steps[i].code != 0
    ensures 0 < prepared <= 200 && stepped <= 200
    ensures forall i :: 0 <= i < prepared - 1 ==> !prepares[i]
    ensures forall i :: 0 <= i < stepped - 1 ==> steps[i].Error?
    ensures !prepares[prepared - 1] ==> prepared == 200 && stepped == 0 && ret == -1
    ensures prepares[prepared - 1] ==>
              && stepped > 0
              && (steps[stepped - 1].RowReady? ==> ret == 0)
              && (steps[stepped - 1].NoMore? ==> ret == 1)
              && (steps[stepped - 1].Error? ==> stepped == 200 && ret == steps[stepped - 1].code)
    ensures ret == 0 <==> prepares[prepared - 1] && steps[stepped - 1].RowReady?
  {
    prepared, stepped := 1, 0;
    var count := 0;
    while !prepares[prepared - 1]
      invariant prepared == count + 1 <= SQLITE_OPT_CNT
      invariant forall i :: 0 <= i < count ==> !prepares[i]
      decreases SQLITE_OPT_CNT - count
    {
      count := count + 1;
      if count >= SQLITE_OPT_CNT {
        return FAILED, prepared, stepped;
      }
      prepared := prepared + 1;
    }
    count := 0;
    stepped := 1;
    while !steps[stepped - 1].RowReady?
      invariant stepped == count + 1 <= SQLITE_OPT_CNT
      invariant forall i :: 0 <= i < count ==> steps[i].Error?
      decreases SQLITE_OPT_CNT - count
    {
      if steps[stepped - 1].NoMore? {
        return NO_MORE, prepared, stepped;
      }
      count := count + 1;
      if count >= SQLITE_OPT_CNT {
        return steps[stepped - 1].code, prepared, stepped;
      }
      stepped := stepped + 1;
    }
    return 0, prepared, stepped;
  }
}
