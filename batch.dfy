/**
 * The import loop of `execute` as a function of the file: the header line is
 * dropped, nothing happens unless the `import` argument is truthy, and every
 * remaining row that passes the filter is handed to `subscribe`, in file
 * order, each one on the table the previous rows left.
 */
module Batch {
  import opened Subscribers
  import opened Rows

  /** The store the command makes current before it reads the file. */
  const CommandStore: int := 1

  /** PHP truthiness of the `import` argument: only "" and "0" are falsy. */
  predicate Truthy(arg: string)
  {
    arg != "" && arg != "0"
  }

  /** The lines after the first (header) line; an empty file has none. */
  function DropHeader<T>(data: seq<T>): seq<T>
  {
    if data == [] then [] else data[1..]
  }

  /** One iteration of the loop: a rejected row leaves the table alone, an
      accepted one is subscribed under its trimmed email and its result dropped. */
  function Step(t: Table, customers: map<string, Customer>, store: int,
                row: Row, o: Oracle, isValid: string -> bool): (r: Table)
    // a row adds at most one record and removes none
    ensures |t| <= |r| <= |t| + 1
  {
    if Accepts(row, isValid) then Upsert(t, customers, store, Trim(row.email), o).table else t
  }

  /** The table after the loop has run over `rows`, the i-th call answered by `oracles[i]`. */
  function ImportRows(t: Table, customers: map<string, Customer>, store: int,
                      rows: seq<Row>, oracles: seq<Oracle>, isValid: string -> bool): (r: Table)
    requires |rows| == |oracles|
    // each line creates at most one record, and none is removed
    ensures |t| <= |r| <= |t| + |rows|
    decreases |rows|
  {
    if rows == [] then t
    else
      var n := |rows| - 1;
      Step(ImportRows(t, customers, store, rows[..n], oracles[..n], isValid),
           customers, store, rows[n], oracles[n], isValid)
  }

  /** The whole command on the lines of a file, one oracle per line (the
      header's is never consulted). */
  function ImportFile(t: Table, customers: map<string, Customer>, data: seq<Row>,
                      importArg: string, oracles: seq<Oracle>, isValid: string -> bool): (r: Table)
    requires |oracles| == |data|
    // at most one record per line after the header, and none for a falsy argument
    ensures |t| <= |r| <= |t| + |DropHeader(data)|
    ensures !Truthy(importArg) ==> r == t
  {
    if Truthy(importArg)
    then ImportRows(t, customers, CommandStore, DropHeader(data), DropHeader(oracles), isValid)
    else t
  }

  /** The emails of the rows that pass the filter and whose save succeeds. */
  function Written(rows: seq<Row>, oracles: seq<Oracle>, isValid: string -> bool): set<string>
    requires |rows| == |oracles|
  {
    set i | 0 <= i < |rows| && Accepts(rows[i], isValid) && oracles[i].saveSucceeds :: Trim(rows[i].email)
  }

  /** Some record with this email is Subscribed. */
  predicate HasSubscribed(t: Table, email: string)
  {
    exists j :: 0 <= j < |t| && t[j].email == email && t[j].status == Subscribed
  }

  /** Appending a row to the file adds one step at the end of the import. */
  lemma ImportSnoc(t: Table, customers: map<string, Customer>, store: int,
                   rows: seq<Row>, oracles: seq<Oracle>, row: Row, o: Oracle, isValid: string -> bool)
    requires |rows| == |oracles|
    ensures ImportRows(t, customers, store, rows + [row], oracles + [o], isValid) ==
            Step(ImportRows(t, customers, store, rows, oracles, isValid), customers, store, row, o, isValid)
  {
  }

  /** Rows are processed in file order: importing `a + b` is importing `a`
      and then importing `b` on the table that `a` left. */
  lemma {:induction false} ImportConcat(t: Table, customers: map<string, Customer>, store: int,
                                        a: seq<Row>, b: seq<Row>, oa: seq<Oracle>, ob: seq<Oracle>,
                                        isValid: string -> bool)
    requires |a| == |oa| && |b| == |ob|
    ensures ImportRows(t, customers, store, a + b, oa + ob, isValid) ==
            ImportRows(ImportRows(t, customers, store, a, oa, isValid), customers, store, b, ob, isValid)
    decreases |b|
  {
    if b == [] {
      assert a + b == a && oa + ob == oa;
    } else {
      var n := |b| - 1;
      ImportConcat(t, customers, store, a, b[..n], oa, ob[..n], isValid);
      assert a + b == (a + b[..n]) + [b[n]] && oa + ob == (oa + ob[..n]) + [ob[n]];
      assert b == b[..n] + [b[n]] && ob == ob[..n] + [ob[n]];
      ImportSnoc(t, customers, store, a + b[..n], oa + ob[..n], b[n], ob[n], isValid);
      ImportSnoc(ImportRows(t, customers, store, a, oa, isValid), customers, store,
                 b[..n], ob[..n], b[n], ob[n], isValid);
    }
  }

  /** The import seen from row i: the rows before it, then row i's step, then
      the rows after it on the table that step left. */
  lemma ImportSplitAt(t: Table, customers: map<string, Customer>, store: int,
                      rows: seq<Row>, oracles: seq<Oracle>, isValid: string -> bool, i: int)
    requires |rows| == |oracles| && 0 <= i < |rows|
    ensures ImportRows(t, customers, store, rows, oracles, isValid) ==
            ImportRows(Step(ImportRows(t, customers, store, rows[..i], oracles[..i], isValid),
                            customers, store, rows[i], oracles[i], isValid),
                       customers, store, rows[i + 1..], oracles[i + 1..], isValid)
  {
    assert rows[..i + 1] == rows[..i] + [rows[i]] && oracles[..i + 1] == oracles[..i] + [oracles[i]];
    ImportSnoc(t, customers, store, rows[..i], oracles[..i], rows[i], oracles[i], isValid);
    ImportConcat(t, customers, store, rows[..i + 1], rows[i + 1..], oracles[..i + 1], oracles[i + 1..], isValid);
    assert rows[..i + 1] + rows[i + 1..] == rows;
    assert oracles[..i + 1] + oracles[i + 1..] == oracles;
  }

  /** A row that is rejected, or whose save fails, has no effect: the import
      comes out as if the row were absent, so the rows after it are processed
      exactly as they would have been. */
  lemma IneffectiveRowIsSkipped(t: Table, customers: map<string, Customer>, store: int,
                                rows: seq<Row>, oracles: seq<Oracle>, isValid: string -> bool, i: int)
    requires |rows| == |oracles| && 0 <= i < |rows|
    requires !Accepts(rows[i], isValid) || !oracles[i].saveSucceeds
    ensures ImportRows(t, customers, store, rows, oracles, isValid) ==
            ImportRows(t, customers, store, rows[..i] + rows[i + 1..], oracles[..i] + oracles[i + 1..], isValid)
  {
    ImportSplitAt(t, customers, store, rows, oracles, isValid, i);
    ImportConcat(t, customers, store, rows[..i], rows[i + 1..], oracles[..i], oracles[i + 1..], isValid);
  }

  /** Only records with the email of an accepted row whose save succeeds can
      change or appear; an existing record keeps its email. */
  lemma {:induction false} ImportWritesOnlyAccepted(t: Table, customers: map<string, Customer>, store: int,
                                                    rows: seq<Row>, oracles: seq<Oracle>, isValid: string -> bool)
    requires |rows| == |oracles|
    ensures var u := ImportRows(t, customers, store, rows, oracles, isValid);
            (forall j :: 0 <= j < |t| && u[j] != t[j] ==>
               t[j].email in Written(rows, oracles, isValid) && u[j].email == t[j].email) &&
            (forall j :: |t| <= j < |u| ==> u[j].email in Written(rows, oracles, isValid))
    decreases |rows|
  {
    if rows != [] {
      var n := |rows| - 1;
      ImportWritesOnlyAccepted(t, customers, store, rows[..n], oracles[..n], isValid);
      forall x | x in Written(rows[..n], oracles[..n], isValid) ensures x in Written(rows, oracles, isValid) {
        var j :| 0 <= j < n && Accepts(rows[..n][j], isValid) && oracles[..n][j].saveSucceeds
                 && Trim(rows[..n][j].email) == x;
        assert rows[..n][j] == rows[j] && oracles[..n][j] == oracles[j];
      }
      var before := ImportRows(t, customers, store, rows[..n], oracles[..n], isValid);
      if Accepts(rows[n], isValid) && oracles[n].saveSucceeds {
        assert Trim(rows[n].email) in Written(rows, oracles, isValid);
      }
    }
  }

  /** A record that is Subscribed is never touched by the import. */
  lemma {:induction false} SubscribedRecordsKept(t: Table, customers: map<string, Customer>, store: int,
                                                 rows: seq<Row>, oracles: seq<Oracle>, isValid: string -> bool)
    requires |rows| == |oracles|
    ensures var u := ImportRows(t, customers, store, rows, oracles, isValid);
            forall j :: 0 <= j < |t| && t[j].status == Subscribed ==> u[j] == t[j]
    decreases |rows|
  {
    if rows != [] {
      var n := |rows| - 1;
      SubscribedRecordsKept(t, customers, store, rows[..n], oracles[..n], isValid);
    }
  }

  /** The import only ever subscribes: a record that is not Subscribed
      afterwards existed before with that same status and email. */
  lemma {:induction false} ImportOnlySubscribes(t: Table, customers: map<string, Customer>, store: int,
                                                rows: seq<Row>, oracles: seq<Oracle>, isValid: string -> bool)
    requires |rows| == |oracles|
    ensures var u := ImportRows(t, customers, store, rows, oracles, isValid);
            forall j :: 0 <= j < |u| && u[j].status != Subscribed ==>
              j < |t| && t[j].status == u[j].status && t[j].email == u[j].email
    decreases |rows|
  {
    if rows != [] {
      var n := |rows| - 1;
      ImportOnlySubscribes(t, customers, store, rows[..n], oracles[..n], isValid);
    }
  }

  /** A step for an accepted row whose save succeeds leaves a Subscribed
      record with the row's email where `subscribe` writes, provided the
      record the lookup finds, if any, is not in status Other. */
  lemma AcceptedStepSubscribes(t: Table, customers: map<string, Customer>, store: int,
                               row: Row, o: Oracle, isValid: string -> bool)
    requires Accepts(row, isValid) && o.saveSucceeds
    requires var w := Slot(t, store, Trim(row.email)); w == |t| || t[w].status != Other
    ensures var u := Step(t, customers, store, row, o, isValid);
            var w := Slot(t, store, Trim(row.email));
            w < |u| && u[w].email == Trim(row.email) && u[w].status == Subscribed
  {
  }

  /** An accepted row whose save succeeds leaves a Subscribed record with its
      email at the end of the import, whatever the later rows do, provided no
      record with that email starts with status Other, which `subscribe` never
      changes. */
  lemma AcceptedRowEndsSubscribed(t: Table, customers: map<string, Customer>, store: int,
                                  rows: seq<Row>, oracles: seq<Oracle>, isValid: string -> bool, i: int)
    requires |rows| == |oracles| && 0 <= i < |rows|
    requires Accepts(rows[i], isValid) && oracles[i].saveSucceeds
    requires forall j :: 0 <= j < |t| && t[j].email == Trim(rows[i].email) ==> t[j].status != Other
    ensures HasSubscribed(ImportRows(t, customers, store, rows, oracles, isValid), Trim(rows[i].email))
  {
    var email := Trim(rows[i].email);
    var before := ImportRows(t, customers, store, rows[..i], oracles[..i], isValid);
    ImportOnlySubscribes(t, customers, store, rows[..i], oracles[..i], isValid);
    var w := Slot(before, store, email);
    if w < |before| {
      assert Matches(before[w], store, email);
      if before[w].status != Subscribed {
        assert w < |t| && t[w].status == before[w].status && t[w].email == before[w].email;
      }
    }
    AcceptedStepSubscribes(before, customers, store, rows[i], oracles[i], isValid);
    var after := Step(before, customers, store, rows[i], oracles[i], isValid);
    ImportSplitAt(t, customers, store, rows, oracles, isValid, i);
    SubscribedRecordsKept(after, customers, store, rows[i + 1..], oracles[i + 1..], isValid);
    var u := ImportRows(t, customers, store, rows, oracles, isValid);
    assert u[w].email == email && u[w].status == Subscribed;
  }

  /** The header line is never processed: its contents do not affect the result. */
  lemma HeaderNeverProcessed(t: Table, customers: map<string, Customer>, header: Row, other: Row,
                             rest: seq<Row>, importArg: string, oracles: seq<Oracle>, isValid: string -> bool)
    requires |oracles| == |rest| + 1
    ensures ImportFile(t, customers, [header] + rest, importArg, oracles, isValid) ==
            ImportFile(t, customers, [other] + rest, importArg, oracles, isValid)
  {
  }

  /** Four rows after the header: a valid subscribed row on website 1, a
      malformed email, an Unsubscribed row and a row for website 2. Only the
      first can reach `subscribe`, so only its email can change. */
  lemma FourRowExample(isValid: string -> bool, oracles: seq<Oracle>)
    requires isValid("a@x.com") && !isValid("bad-email")
    requires |oracles| == 4 && forall i :: 0 <= i < 4 ==> oracles[i].saveSucceeds
    ensures var rows := [Row(" a@x.com ", 1, 1), Row("bad-email", 1, 1), Row("b@x.com", 3, 1), Row("c@x.com", 1, 2)];
            Written(rows, oracles, isValid) == {"a@x.com"}
  {
    var rows := [Row(" a@x.com ", 1, 1), Row("bad-email", 1, 1), Row("b@x.com", 3, 1), Row("c@x.com", 1, 2)];
    assert TrimLeft(" a@x.com ") == "a@x.com ";
    assert TrimRight("a@x.com ") == "a@x.com";
    assert Trim(rows[0].email) == "a@x.com";
    assert Trim(rows[1].email) == "bad-email";
    assert Accepts(rows[0], isValid);
    assert "a@x.com" in Written(rows, oracles, isValid);
  }
}
