/** The attendance report written after the loop: one row per key of the
    session log, merged into an existing report for the day by
    concatenating prior rows and new rows and dropping duplicates on the name
    column, keeping the last occurrence.

    The spreadsheet file is not modelled: a report is its sequence of rows,
    an existing file is `Some(rows)`, a missing one `None`. Each row's time
    is a separate clock reading; `clock(i)` is the reading taken for the
    i-th row. */
module Report {
  import opened Wrappers
  import opened Session

  type Timestamp = string

  /** One row: the "Login Candidates" and "Login Time" columns. */
  datatype Row = Row(name: Name, time: Timestamp)

  function NameSet(rows: seq<Row>): set<Name> {
    set i | 0 <= i < |rows| :: rows[i].name
  }

  predicate UniqueNames(rows: seq<Row>) {
    forall i, j | 0 <= i < j < |rows| :: rows[i].name != rows[j].name
  }

  /** Row `i` is the last row of `rows` carrying its name. */
  predicate LastOccurrence(rows: seq<Row>, i: int) {
    0 <= i < |rows| && forall j | i < j < |rows| :: rows[j].name != rows[i].name
  }

  /** The rows whose name is not in `drop`, in their original order. */
  function Without(rows: seq<Row>, drop: set<Name>): (r: seq<Row>)
    ensures NameSet(r) == NameSet(rows) - drop
    ensures UniqueNames(rows) ==> UniqueNames(r)
    ensures forall x | x in r :: x in rows
    decreases |rows|
  {
    if |rows| == 0 then []
    else if rows[0].name in drop then Without(rows[1..], drop)
    else
      var rest := Without(rows[1..], drop);
      assert NameSet(rows) == {rows[0].name} + NameSet(rows[1..]) by { NameSetCons(rows); }
      assert NameSet([rows[0]] + rest) == {rows[0].name} + NameSet(rest) by { NameSetCons([rows[0]] + rest); }
      [rows[0]] + rest
  }

  lemma NameSetCons(rows: seq<Row>)
    requires |rows| > 0
    ensures NameSet(rows) == {rows[0].name} + NameSet(rows[1..])
  {
  }

  lemma NameSetAppend(a: seq<Row>, b: seq<Row>)
    ensures NameSet(a + b) == NameSet(a) + NameSet(b)
  {
    forall n | n in NameSet(a + b) ensures n in NameSet(a) + NameSet(b) {
      var i :| 0 <= i < |a + b| && (a + b)[i].name == n;
      if i >= |a| { assert b[i - |a|].name == n; }
    }
    forall n | n in NameSet(a) + NameSet(b) ensures n in NameSet(a + b) {
      if n in NameSet(a) {
        var i :| 0 <= i < |a| && a[i].name == n;
        assert (a + b)[i].name == n;
      } else {
        var i :| 0 <= i < |b| && b[i].name == n;
        assert (a + b)[|a| + i].name == n;
      }
    }
  }

  // ---------------------------------------------------------------------------
  // New rows
  // ---------------------------------------------------------------------------

  /** One row per key of the log, in the log's key order, each stamped with
      its own clock reading. */
  function NewRows(log: Log, clock: nat -> Timestamp): (rows: seq<Row>)
    ensures |rows| == |log.order|
    ensures forall i | 0 <= i < |rows| :: rows[i] == Row(log.order[i], clock(i))
    ensures ValidLog(log) ==> UniqueNames(rows) && NameSet(rows) == log.dates.Keys
    ensures ValidLog(log) ==> |rows| == |log.dates|
  {
    var rows := seq(|log.order|, i requires 0 <= i < |log.order| => Row(log.order[i], clock(i)));
    assert forall i | 0 <= i < |rows| :: rows[i].name == log.order[i];
    if ValidLog(log) then
      assert NameSet(rows) == log.dates.Keys by {
        forall n | n in log.dates ensures n in NameSet(rows) {
          var i :| 0 <= i < |log.order| && log.order[i] == n;
        }
      }
      UniqueCard(rows);
      rows
    else rows
  }

  /** Rows with pairwise distinct names have as many rows as names. */
  lemma {:induction false} UniqueCard(rows: seq<Row>)
    requires UniqueNames(rows)
    ensures |NameSet(rows)| == |rows|
    decreases |rows|
  {
    if |rows| > 0 {
      NameSetCons(rows);
      UniqueCard(rows[1..]);
      assert rows[0].name !in NameSet(rows[1..]) by {
        forall i | 0 <= i < |rows[1..]| ensures rows[1..][i].name != rows[0].name {
          assert rows[1..][i] == rows[i + 1];
        }
      }
    }
  }

  // ---------------------------------------------------------------------------
  // drop_duplicates(subset = name, keep = "last")
  // ---------------------------------------------------------------------------

  /** Drops every row that has a later row of the same name; the surviving
      rows keep their relative order. */
  function KeepLast(rows: seq<Row>): (r: seq<Row>)
    ensures UniqueNames(r)
    ensures NameSet(r) == NameSet(rows)
    ensures forall x | x in r :: x in rows
    decreases |rows|
  {
    if |rows| == 0 then []
    else
      var rest := KeepLast(rows[1..]);
      NameSetCons(rows);
      if rows[0].name in NameSet(rows[1..]) then rest
      else
        NameSetCons([rows[0]] + rest);
        assert ([rows[0]] + rest)[1..] == rest;
        [rows[0]] + rest
  }

  /** The reference reading of a report: the row a name maps to is the last
      row carrying it. */
  function LastRowOf(rows: seq<Row>, n: Name): (r: Option<Row>)
    ensures r.None? <==> n !in NameSet(rows)
    ensures r.Some? ==> r.value in rows && r.value.name == n
    decreases |rows|
  {
    if |rows| == 0 then None
    else
      NameSetCons(rows);
      match LastRowOf(rows[1..], n)
      case Some(x) => Some(x)
      case None => if rows[0].name == n then Some(rows[0]) else None
  }

  /** A last occurrence survives de-duplication. */
  lemma {:induction false} LastOccurrenceSurvives(rows: seq<Row>, i: int)
    requires LastOccurrence(rows, i)
    ensures rows[i] in KeepLast(rows)
    decreases |rows|
  {
    NameSetCons(rows);
    if i == 0 {
      assert rows[0].name !in NameSet(rows[1..]) by {
        forall j | 0 <= j < |rows[1..]| ensures rows[1..][j].name != rows[0].name {
          assert rows[1..][j] == rows[j + 1];
        }
      }
    } else {
      assert LastOccurrence(rows[1..], i - 1) by {
        forall j | i - 1 < j < |rows[1..]| ensures rows[1..][j].name != rows[1..][i - 1].name {
          assert rows[1..][j] == rows[j + 1];
        }
      }
      LastOccurrenceSurvives(rows[1..], i - 1);
      assert rows[i] == rows[1..][i - 1];
    }
  }

  /** De-duplication changes no name's row: every name maps to the same row
      before and after. */
  lemma {:induction false} KeepLastPreservesLookup(rows: seq<Row>, n: Name)
    ensures LastRowOf(KeepLast(rows), n) == LastRowOf(rows, n)
    decreases |rows|
  {
    if |rows| > 0 {
      KeepLastPreservesLookup(rows[1..], n);
      NameSetCons(rows);
      var rest := KeepLast(rows[1..]);
      if rows[0].name !in NameSet(rows[1..]) {
        assert KeepLast(rows) == [rows[0]] + rest;
        assert ([rows[0]] + rest)[1..] == rest;
      }
    }
  }

  /** Looking a name up in a concatenation: the second part wins. */
  lemma {:induction false} LastRowOfAppend(a: seq<Row>, b: seq<Row>, n: Name)
    ensures LastRowOf(a + b, n) == if n in NameSet(b) then LastRowOf(b, n) else LastRowOf(a, n)
    decreases |a|
  {
    if |a| == 0 {
      assert a + b == b;
    } else {
      assert (a + b)[1..] == a[1..] + b;
      assert (a + b)[0] == a[0];
      LastRowOfAppend(a[1..], b, n);
    }
  }

  /** Rows whose names are already distinct pass through unchanged. */
  lemma {:induction false} KeepLastUnique(rows: seq<Row>)
    requires UniqueNames(rows)
    ensures KeepLast(rows) == rows
    decreases |rows|
  {
    if |rows| > 0 {
      NameSetCons(rows);
      assert rows[0].name !in NameSet(rows[1..]) by {
        forall i | 0 <= i < |rows[1..]| ensures rows[1..][i].name != rows[0].name {
          assert rows[1..][i] == rows[i + 1];
        }
      }
      KeepLastUnique(rows[1..]);
      assert rows == [rows[0]] + rows[1..];
    }
  }

  /** De-duplicating a concatenation: the first part's survivors lose every
      name the second part carries, and the second part's survivors follow. */
  lemma {:induction false} KeepLastAppend(a: seq<Row>, b: seq<Row>)
    ensures KeepLast(a + b) == Without(KeepLast(a), NameSet(b)) + KeepLast(b)
    decreases |a|
  {
    if |a| == 0 {
      assert a + b == b;
    } else {
      assert (a + b)[1..] == a[1..] + b;
      assert (a + b)[0] == a[0];
      KeepLastAppend(a[1..], b);
      NameSetAppend(a[1..], b);
      NameSetCons(a + b);
      NameSetCons(a);
      var rest := KeepLast(a[1..]);
      if a[0].name in NameSet(a[1..]) {
        assert KeepLast(a) == rest;
      } else if a[0].name in NameSet(b) {
        assert KeepLast(a) == [a[0]] + rest;
        assert ([a[0]] + rest)[1..] == rest;
      } else {
        assert KeepLast(a) == [a[0]] + rest;
        assert ([a[0]] + rest)[1..] == rest;
        assert Without([a[0]] + rest, NameSet(b)) == [a[0]] + Without(rest, NameSet(b));
      }
    }
  }

  // ---------------------------------------------------------------------------
  // Writing the report
  // ---------------------------------------------------------------------------

  /** The rows written for the day, or None when the log is empty and no
      file is written. With an existing report, the rows written are its
      rows followed by the new rows, de-duplicated keeping the last. */
  function SaveReport(log: Log, clock: nat -> Timestamp, existing: Option<seq<Row>>): (written: Option<seq<Row>>)
    requires ValidLog(log)
    ensures written.None? <==> log.dates == map[]
    ensures written.Some? ==> UniqueNames(written.value)
    ensures written.Some? && existing.None? ==> NameSet(written.value) == log.dates.Keys
    ensures written.Some? && existing.Some? ==>
              NameSet(written.value) == NameSet(existing.value) + log.dates.Keys
    ensures written.Some? && existing.Some? ==>
              written.value == Without(KeepLast(existing.value), log.dates.Keys) + NewRows(log, clock)
  {
    if |log.dates| == 0 then None
    else
      var added := NewRows(log, clock);
      match existing
      case None => Some(added)
      case Some(prior) =>
        NameSetAppend(prior, added);
        MergeShape(prior, added);
        Some(KeepLast(prior + added))
  }

  /** De-duplicating existing rows followed by new rows with distinct names:
      the existing rows, de-duplicated, minus every new name, followed by all
      new rows. */
  lemma MergeShape(prior: seq<Row>, added: seq<Row>)
    requires UniqueNames(added)
    ensures KeepLast(prior + added) == Without(KeepLast(prior), NameSet(added)) + added
  {
    KeepLastAppend(prior, added);
    KeepLastUnique(added);
  }

  /** Keep-last merge semantics: in the merged rows each name maps to its
      last new row when it has one, and to its last existing row otherwise. */
  lemma MergeLookup(prior: seq<Row>, added: seq<Row>, n: Name)
    ensures LastRowOf(KeepLast(prior + added), n)
            == if n in NameSet(added) then LastRowOf(added, n) else LastRowOf(prior, n)
  {
    KeepLastPreservesLookup(prior + added, n);
    LastRowOfAppend(prior, added, n);
  }

  /** New rows with distinct names all survive the merge, each as the only
      row of its name. */
  lemma NewRowsSurvive(prior: seq<Row>, added: seq<Row>)
    requires UniqueNames(added)
    ensures var written := KeepLast(prior + added);
      && (forall x | x in added :: x in written)
      && (forall x, y | x in added && y in written && y.name == x.name :: y == x)
  {
    var written := KeepLast(prior + added);
    MergeShape(prior, added);
    forall x, y | x in added && y in written && y.name == x.name ensures y == x {
      UniqueNamesDetermine(written, x, y);
    }
  }

  /** In rows with distinct names, a name identifies its row. */
  lemma UniqueNamesDetermine(rows: seq<Row>, x: Row, y: Row)
    requires UniqueNames(rows)
    requires x in rows && y in rows && x.name == y.name
    ensures x == y
  {
  }

  /** With no report on disk, the new rows are written as they are. */
  lemma FirstReportOfDay(log: Log, clock: nat -> Timestamp)
    requires ValidLog(log)
    requires log.dates != map[]
    ensures SaveReport(log, clock, None) == Some(NewRows(log, clock))
  {
  }

  /** Saving again on the same day for names a one-row-per-name report
      already holds adds no row. */
  lemma RerunAddsNoRows(prior: seq<Row>, added: seq<Row>)
    requires UniqueNames(prior)
    requires NameSet(added) <= NameSet(prior)
    ensures |KeepLast(prior + added)| == |prior|
  {
    var written := KeepLast(prior + added);
    NameSetAppend(prior, added);
    assert NameSet(written) == NameSet(prior);
    UniqueCard(prior);
    UniqueCard(written);
    assert |written| == |NameSet(written)| == |NameSet(prior)| == |prior|;
  }
}
