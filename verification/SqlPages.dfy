/** packages/postgres/src/sqlstore.ts: query and iterate, over a table that does not change. `rows` are
    the rows the filter accepts, in the order the query asks for. */
module SqlPages {
  import opened Common

  function Min(a: nat, b: nat): (r: nat) { if a <= b then a else b }

  /** `LIMIT limit OFFSET offset`. */
  function Page<T>(rows: seq<T>, offset: nat, limit: nat): (page: seq<T>)
  {
    rows[Min(offset, |rows|)..Min(offset + limit, |rows|)]
  }

  /** `query`: a page, and a continuation token when the page is full. */
  function Query<T>(rows: seq<T>, offset: nat, limit: nat): (r: (seq<T>, Option<nat>))
  {
    var results := Page(rows, offset, limit);
    (results, if limit <= |results| then Some(offset + limit) else None)
  }

  /** What the first rounds of iterate's do-while loop yield, and whether the loop is over. `carries` says
      whether the text that `parsed.toString()` prints carries `parsed.continuationToken`. */
  function Rounds<T>(rows: seq<T>, offset: nat, limit: nat, carries: bool, rounds: nat): (r: (seq<T>, bool))
    decreases rounds
  {
    if rounds == 0 then ([], false) else
      var (results, token) := Query(rows, offset, limit);
      if token.None? then (results, true) else
        var later := Rounds(rows, if carries then token.value else offset, limit, carries, rounds - 1);
        (results + later.0, later.1)
  }

  /** `iterate`, stopped after so many rounds. */
  method Iterate<T>(rows: seq<T>, offset: nat, limit: nat, carries: bool, rounds: nat)
    returns (yielded: seq<T>, done: bool)
    ensures (yielded, done) == Rounds(rows, offset, limit, carries, rounds)
  {
    yielded, done := [], false;
    var at, r := offset, 0;
    assert yielded + Rounds(rows, offset, limit, carries, rounds).0 == Rounds(rows, offset, limit, carries, rounds).0;
    while r < rounds && !done
      invariant r <= rounds
      invariant var rest := Rounds(rows, at, limit, carries, rounds - r);
                if done then Rounds(rows, offset, limit, carries, rounds) == (yielded, true)
                else Rounds(rows, offset, limit, carries, rounds) == (yielded + rest.0, rest.1)
    {
      var results, token := Query(rows, at, limit).0, Query(rows, at, limit).1;
      ghost var rest := Rounds(rows, at, limit, carries, rounds - r);
      ghost var before := yielded;
      yielded := yielded + results;
      if token.None? {
        done := true;
      } else {
        if carries { at := token.value; }
        ghost var later := Rounds(rows, at, limit, carries, rounds - r - 1);
        assert before + (results + later.0) == yielded + later.0;
      }
      r := r + 1;
    }
    assert yielded + [] == yielded;
  }

  lemma ShortPage<T>(rows: seq<T>, offset: nat, limit: nat)
    requires limit > 0 && offset + limit > |rows|
    ensures Query(rows, offset, limit) == (rows[Min(offset, |rows|)..], None)
  {
    assert Page(rows, offset, limit) == rows[Min(offset, |rows|)..];
  }

  /** With a printer that carries the token, iterate ends and yields every row from the offset on exactly
      once and in order, for every positive limit, totals that are multiples of it included. */
  lemma {:induction false} CarriedTokenVisitsEveryRow<T>(rows: seq<T>, offset: nat, limit: nat, rounds: nat)
    requires limit > 0 && rounds > 0 && |rows| < offset + rounds * limit
    ensures Rounds(rows, offset, limit, true, rounds) == (rows[Min(offset, |rows|)..], true)
    decreases rounds
  {
    if offset + limit > |rows| {
      ShortPage(rows, offset, limit);
    } else {
      assert offset + rounds * limit == (offset + limit) + (rounds - 1) * limit;
      CarriedTokenVisitsEveryRow(rows, offset + limit, limit, rounds - 1);
      assert rows[offset..offset + limit] + rows[offset + limit..] == rows[offset..];
    }
  }

  function Repeat<T>(page: seq<T>, times: nat): (r: seq<T>)
    ensures |r| == times * |page|
  {
    if times == 0 then [] else page + Repeat(page, times - 1)
  }

  /** With the repository's printer, which prints the query as it was parsed: a full first page is fetched
      and yielded again in every round, for ever. */
  lemma {:induction false} FixedTextRepeatsFullPage<T>(rows: seq<T>, offset: nat, limit: nat, rounds: nat)
    requires limit > 0 && offset + limit <= |rows|
    ensures Rounds(rows, offset, limit, false, rounds) == (Repeat(rows[offset..offset + limit], rounds), false)
  {
    if rounds > 0 {
      FixedTextRepeatsFullPage(rows, offset, limit, rounds - 1);
    }
  }

  /** So iterate as it stands is right exactly when the rows from the offset on fill less than a page. */
  lemma IterateIsRightExactlyOnShortResults<T>(rows: seq<T>, offset: nat, limit: nat)
    requires limit > 0
    ensures (exists rounds: nat :: Rounds(rows, offset, limit, false, rounds) == (rows[Min(offset, |rows|)..], true))
        <==> |rows| < offset + limit
  {
    if |rows| < offset + limit {
      ShortPage(rows, offset, limit);
      assert Rounds(rows, offset, limit, false, 1) == (rows[Min(offset, |rows|)..], true);
    } else {
      forall rounds: nat ensures !Rounds(rows, offset, limit, false, rounds).1 {
        FixedTextRepeatsFullPage(rows, offset, limit, rounds);
      }
    }
  }
}
