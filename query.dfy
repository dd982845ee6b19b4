/** The query semantics of the hosted relational store, as far as the services rely on it:
    filtering a table by a row predicate, and the two result shapes `.single()` and
    `.maybeSingle()`. Tables are sequences of rows in storage order. */
module Query {

  datatype Option<+T> = None | Some(value: T)

  datatype Result<+T, +E> = Ok(value: T) | Err(error: E)

  /** Errors the store reports to the services.  Both row-count errors carry the
      PostgREST code PGRST116; ForeignKeyViolation is Postgres code 23503. */
  datatype QueryError =
    | NoRows               // `.single()` matched no row
    | MultipleRows         // `.single()` or `.maybeSingle()` matched more than one row
    | ForeignKeyViolation  // an inserted row references a missing parent row

  /** The rows of `s` that satisfy `f`, in storage order: a selection with `.eq`/`.or` filters. */
  function Filter<T(!new)>(f: T -> bool, s: seq<T>): (r: seq<T>)
    ensures |r| <= |s|
    ensures forall x :: x in r <==> x in s && f(x)
  {
    if s == [] then []
    else if f(s[0]) then [s[0]] + Filter(f, s[1..])
    else Filter(f, s[1..])
  }

  lemma {:induction false} FilterAppend<T(!new)>(f: T -> bool, a: seq<T>, b: seq<T>)
    ensures Filter(f, a + b) == Filter(f, a) + Filter(f, b)
  {
    if a == [] {
      assert a + b == b;
    } else {
      assert (a + b)[1..] == a[1..] + b;
      FilterAppend(f, a[1..], b);
    }
  }

  /** A row the filter rejects can be dropped without changing the selection. */
  lemma FilterSkips<T(!new)>(f: T -> bool, before: seq<T>, x: T, after: seq<T>)
    requires !f(x)
    ensures Filter(f, before + [x] + after) == Filter(f, before + after)
  {
    FilterAppend(f, before + [x], after);
    FilterAppend(f, before, [x]);
    FilterAppend(f, before, after);
    assert Filter(f, [x]) == [];
  }

  /** Two filters that agree on every row select the same rows. */
  lemma {:induction false} FilterExtensional<T(!new)>(f: T -> bool, g: T -> bool, s: seq<T>)
    requires forall x :: f(x) == g(x)
    ensures Filter(f, s) == Filter(g, s)
  {
    if s != [] {
      FilterExtensional(f, g, s[1..]);
    }
  }

  /** A filter that no row satisfies selects nothing. */
  lemma FilterNone<T(!new)>(f: T -> bool, s: seq<T>)
    requires forall x :: x in s ==> !f(x)
    ensures Filter(f, s) == []
  {
  }

  /** Gives callers the term `s[0] in s` to trigger membership facts on, without a branch
      that the facts in scope might rule out. */
  lemma EmptyOrHasHead<T>(s: seq<T>)
    ensures s == [] || s[0] in s
  {
  }

  /** Two matching rows at distinct positions make the selection hold at least two rows. */
  lemma {:induction false} FilterTwo<T(!new)>(f: T -> bool, s: seq<T>, i: nat, j: nat)
    requires i < j < |s|
    requires f(s[i]) && f(s[j])
    ensures |Filter(f, s)| >= 2
  {
    assert s == s[..j] + s[j..];
    FilterAppend(f, s[..j], s[j..]);
    assert s[..j][i] == s[i];
    assert s[i] in Filter(f, s[..j]);
    assert s[j..][0] == s[j];
    assert s[j] in Filter(f, s[j..]);
  }

  /** A row that is the only match at its position is the whole selection. */
  lemma FilterOnly<T(!new)>(f: T -> bool, s: seq<T>, i: nat)
    requires i < |s|
    requires f(s[i])
    requires forall j :: 0 <= j < |s| && j != i ==> !f(s[j])
    ensures Filter(f, s) == [s[i]]
  {
    assert s == s[..i] + [s[i]] + s[i+1..];
    FilterAppend(f, s[..i] + [s[i]], s[i+1..]);
    FilterAppend(f, s[..i], [s[i]]);
    forall x | x in s[..i] ensures !f(x) {
      var k :| 0 <= k < i && s[..i][k] == x;
    }
    forall x | x in s[i+1..] ensures !f(x) {
      var k :| 0 <= k < |s| - i - 1 && s[i+1..][k] == x;
      assert s[i + 1 + k] == x;
    }
    FilterNone(f, s[..i]);
    FilterNone(f, s[i+1..]);
  }

  /** `.single()`: succeeds exactly when one row matched. */
  function Single<T>(rows: seq<T>): (r: Result<T, QueryError>)
    ensures r.Ok? <==> |rows| == 1
    ensures r.Ok? ==> rows == [r.value]
    ensures r.Err? ==> r.error == (if rows == [] then NoRows else MultipleRows)
  {
    if |rows| == 1 then Ok(rows[0])
    else if rows == [] then Err(NoRows)
    else Err(MultipleRows)
  }

  /** `.maybeSingle()`: no row is a null result, one row is that row, more rows are an error. */
  function MaybeSingle<T>(rows: seq<T>): (r: Result<Option<T>, QueryError>)
    ensures r.Err? <==> |rows| > 1
    ensures r.Err? ==> r.error == MultipleRows
    ensures r == Ok(None) <==> rows == []
    ensures r.Ok? && r.value.Some? <==> |rows| == 1
    ensures r.Ok? && r.value.Some? ==> rows == [r.value.value]
  {
    if rows == [] then Ok(None)
    else if |rows| == 1 then Ok(Some(rows[0]))
    else Err(MultipleRows)
  }
}
