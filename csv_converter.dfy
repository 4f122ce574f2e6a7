/**
 * `CsvConverter`: serialise through `csv.DictWriter` into a string buffer,
 * deserialise through `csv.DictReader` over the text's lines.
 */
module CsvConverter {
  import opened Errors
  import opened Records
  import opened CsvWriter
  import opened CsvReader

  // ----- serialise --------------------------------------------------------

  /** `DictWriter._dict_to_list`: a row's values in field-name order, an empty
      field for a missing key, and a `ValueError` for keys outside the field
      names. */
  function RowValues(fieldnames: seq<string>, row: Row): (r: Result<seq<string>>)
    ensures r.Ok? ==> |r.value| == |fieldnames|
    ensures r.Err? ==> r.error.FieldsNotInFieldnames? && r.error.wrong != {}
  {
    var wrong := WrongFields(fieldnames, row);
    if wrong != {} then Err(FieldsNotInFieldnames(wrong))
    else Ok(Lookup(fieldnames, row))
  }

  /** `rowdict.keys() - fieldnames` */
  function WrongFields(fieldnames: seq<string>, row: Row): (wrong: set<string>)
    ensures forall k :: k in wrong <==> k in Keys(row) && k !in fieldnames
  {
    set k | k in Keys(row) && k !in fieldnames
  }

  /** `[rowdict.get(key, "") for key in fieldnames]` */
  function Lookup(fieldnames: seq<string>, row: Row): (values: seq<string>)
    ensures |values| == |fieldnames|
    ensures forall j :: 0 <= j < |fieldnames| ==> values[j] == Get(row, fieldnames[j], "")
  {
    if fieldnames == [] then [] else [Get(row, fieldnames[0], "")] + Lookup(fieldnames[1..], row)
  }

  /** The records `writerows` writes for `rows`, stopping at the first failure. */
  function AllRowValues(fieldnames: seq<string>, rows: seq<Row>): Result<seq<seq<string>>>
  {
    if rows == [] then Ok([])
    else
      var first :- RowValues(fieldnames, rows[0]);
      var rest :- AllRowValues(fieldnames, rows[1..]);
      Ok([first] + rest)
  }

  /** The text `CsvConverter.serialise(d)` returns, or the exception it raises. */
  function SerialiseSpec(d: Data): (r: Result<string>)
    ensures r.Ok? ==> d.Table? && |d.rows| > 0
  {
    match d
    case Object(_) => Err(KeyNotFound)
    case Table(rows) =>
      if rows == [] then Err(IndexOutOfRange) else WriteTable(Keys(rows[0]), rows)
  }

  /** The header line for `fieldnames`, then the lines of `rows`. */
  function WriteTable(fieldnames: seq<string>, rows: seq<Row>): Result<string>
  {
    var records :- AllRowValues(fieldnames, rows);
    Ok(WriteRow(fieldnames) + WriteRows(records))
  }

  /** `CsvConverter.serialise`: the header, then each row in turn, written
      into a buffer that is returned once every row has been written. */
  method Serialise(d: Data) returns (r: Result<string>)
    ensures r == SerialiseSpec(d)
  {
    if d.Object? {
      return Err(KeyNotFound);
    }
    var rows := d.rows;
    if |rows| == 0 {
      return Err(IndexOutOfRange);
    }
    var fieldnames := Keys(rows[0]);
    r := WriteBuffer(fieldnames, rows);
  }

  /** `writer.writeheader()` then `writer.writerows(rows)` into a fresh buffer. */
  method WriteBuffer(fieldnames: seq<string>, rows: seq<Row>) returns (r: Result<string>)
    ensures r == WriteTable(fieldnames, rows)
  {
    var output := WriteRow(fieldnames);
    ghost var written: seq<seq<string>> := [];
    var i := 0;
    while i < |rows|
      invariant 0 <= i <= |rows|
      invariant AllRowValues(fieldnames, rows[..i]) == Ok(written)
      invariant output == WriteRow(fieldnames) + WriteRows(written)
    {
      var values := RowValues(fieldnames, rows[i]);
      if values.Err? {
        RowFails(fieldnames, rows, i, written);
        return Err(values.error);
      }
      RowWritten(fieldnames, rows, i, written);
      OutputGrows(WriteRow(fieldnames), written, values.value);
      output := output + WriteRow(values.value);
      written := written + [values.value];
      i := i + 1;
    }
    assert rows[..i] == rows;
    return Ok(output);
  }

  /** The records of one more row are those of the rows before it and its own. */
  lemma {:induction false} AllRowValuesAppend(fieldnames: seq<string>, rows: seq<Row>, row: Row)
    ensures AllRowValues(fieldnames, rows).Err? ==>
      AllRowValues(fieldnames, rows + [row]) == AllRowValues(fieldnames, rows)
    ensures AllRowValues(fieldnames, rows).Ok? && RowValues(fieldnames, row).Err? ==>
      AllRowValues(fieldnames, rows + [row]) == Err(RowValues(fieldnames, row).error)
    ensures AllRowValues(fieldnames, rows).Ok? && RowValues(fieldnames, row).Ok? ==>
      AllRowValues(fieldnames, rows + [row]) == Ok(AllRowValues(fieldnames, rows).value + [RowValues(fieldnames, row).value])
  {
    var all := rows + [row];
    if rows == [] {
      assert all[0] == row && all[1..] == [];
      assert AllRowValues(fieldnames, all[1..]) == Ok([]);
      if RowValues(fieldnames, row).Ok? {
        var v := RowValues(fieldnames, row).value;
        assert [v] + [] == [] + [v];
      }
    } else {
      assert all[0] == rows[0];
      assert all[1..] == rows[1..] + [row];
      AllRowValuesAppend(fieldnames, rows[1..], row);
      var first := RowValues(fieldnames, rows[0]);
      if first.Ok? {
        var rest := AllRowValues(fieldnames, rows[1..]);
        if rest.Ok? && RowValues(fieldnames, row).Ok? {
          assert [first.value] + (rest.value + [RowValues(fieldnames, row).value])
              == [first.value] + rest.value + [RowValues(fieldnames, row).value];
        }
      }
    }
  }

  /** Writing one more row's line onto the buffer. */
  lemma OutputGrows(header: string, written: seq<seq<string>>, values: seq<string>)
    ensures header + WriteRows(written) + WriteRow(values) == header + WriteRows(written + [values])
  {
    var body, line := WriteRows(written), WriteRow(values);
    WriteRowsAppend(written, values);
    assert header + body + line == header + (body + line) by {
      JoinLeft(header, body, line);
    }
  }

  lemma JoinLeft(a: string, b: string, c: string)
    ensures a + b + c == a + (b + c)
  {
  }

  lemma RowWritten(fieldnames: seq<string>, rows: seq<Row>, i: nat, written: seq<seq<string>>)
    requires i < |rows|
    requires AllRowValues(fieldnames, rows[..i]) == Ok(written)
    requires RowValues(fieldnames, rows[i]).Ok?
    ensures AllRowValues(fieldnames, rows[..i + 1]) == Ok(written + [RowValues(fieldnames, rows[i]).value])
  {
    var prefix, row := rows[..i], rows[i];
    assert rows[..i + 1] == prefix + [row];
    AllRowValuesAppend(fieldnames, prefix, row);
  }

  lemma RowFails(fieldnames: seq<string>, rows: seq<Row>, i: nat, written: seq<seq<string>>)
    requires i < |rows|
    requires AllRowValues(fieldnames, rows[..i]) == Ok(written)
    requires RowValues(fieldnames, rows[i]).Err?
    ensures AllRowValues(fieldnames, rows) == Err(RowValues(fieldnames, rows[i]).error)
  {
    var prefix, row := rows[..i], rows[i];
    assert rows[..i + 1] == prefix + [row];
    AllRowValuesAppend(fieldnames, prefix, row);
    AllRowValuesStops(fieldnames, rows, i + 1);
  }

  /** Once a prefix of the rows fails, all of them fail in the same way. */
  lemma {:induction false} AllRowValuesStops(fieldnames: seq<string>, rows: seq<Row>, n: nat)
    requires n <= |rows|
    requires AllRowValues(fieldnames, rows[..n]).Err?
    ensures AllRowValues(fieldnames, rows) == AllRowValues(fieldnames, rows[..n])
  {
    if n > 0 && rows != [] {
      assert rows[..n][0] == rows[0] && rows[..n][1..] == rows[1..][..n - 1];
      if RowValues(fieldnames, rows[0]).Ok? {
        AllRowValuesStops(fieldnames, rows[1..], n - 1);
      }
    }
  }

  // ----- deserialise ------------------------------------------------------

  /** The dicts `DictReader` builds from the records after the header: blank
      records are skipped, every other record is zipped with the header.
      `index` is the position of `records[0]` in the reader's output. */
  function BuildRows(header: seq<string>, records: seq<seq<string>>, index: nat): (r: Result<seq<Row>>)
    ensures r.Ok? ==> |r.value| <= |records|
    ensures r.Err? ==> r.error.RaggedRow? && r.error.record >= index
  {
    if records == [] then Ok([])
    else if records[0] == [] then BuildRows(header, records[1..], index + 1)
    else if |records[0]| != |header| then Err(RaggedRow(index))
    else
      var row := DictOf(Zip(header, records[0]));
      var rest :- BuildRows(header, records[1..], index + 1);
      Ok([row] + rest)
  }

  /** `list(csv.DictReader(records))`: the first record names the fields. */
  function DictRows(records: seq<seq<string>>): (r: Result<seq<Row>>)
    ensures r.Ok? && records != [] ==> |r.value| < |records|
    ensures r.Err? ==> r.error.RaggedRow? && r.error.record >= 1
  {
    if records == [] then Ok([]) else BuildRows(records[0], records[1..], 1)
  }

  /** `CsvConverter.deserialise(s)` */
  function Deserialise(s: string): (r: Result<Data>)
    ensures r.Ok? ==> r.value.Table?
    ensures r.Err? ==> r.error.CsvReaderError? || r.error.RaggedRow?
    ensures s == "" ==> r == Ok(Table([]))
  {
    var records :- ReadAll(SplitLines(s));
    var rows :- DictRows(records);
    Ok(Table(rows))
  }

  // ----- properties -------------------------------------------------------

  /** The rows whose records DictReader keeps: the non-blank ones. */
  function NonBlank(records: seq<seq<string>>): (kept: seq<seq<string>>)
    ensures forall r :: r in kept <==> r in records && r != []
    ensures |kept| <= |records|
  {
    if records == [] then []
    else if records[0] == [] then NonBlank(records[1..])
    else [records[0]] + NonBlank(records[1..])
  }

  /** Filtering keeps the order: the non-blank records of two stretches of
      records, one after the other. */
  lemma {:induction false} NonBlankAppend(a: seq<seq<string>>, b: seq<seq<string>>)
    ensures NonBlank(a + b) == NonBlank(a) + NonBlank(b)
  {
    if a == [] {
      assert a + b == b;
    } else {
      assert (a + b)[0] == a[0] && (a + b)[1..] == a[1..] + b;
      NonBlankAppend(a[1..], b);
    }
  }

  /** A record zipped with a header of the same width is a dict; when the
      header names each field once, its keys are the header and its values
      the record. */
  lemma ZippedRecord(header: seq<string>, record: seq<string>)
    requires |record| == |header|
    ensures DistinctKeys(DictOf(Zip(header, record)))
    ensures Distinct(header) ==>
      Keys(DictOf(Zip(header, record))) == header && Values(DictOf(Zip(header, record))) == record
  {
    var pairs := Zip(header, record);
    DictOfIsDict(pairs);
    if Distinct(header) {
      assert DistinctKeys(pairs);
      DictOfDistinct(pairs);
    }
  }

  /** Every row DictReader builds is a dict over the header: one per non-blank
      record, in order, and when the header names each field once, its keys
      are the header and its values the record's fields. */
  lemma {:induction false} BuildRowsShape(header: seq<string>, records: seq<seq<string>>, index: nat)
    requires BuildRows(header, records, index).Ok?
    ensures var rows := BuildRows(header, records, index).value;
      && |rows| == |NonBlank(records)|
      && (forall i :: 0 <= i < |rows| ==> DistinctKeys(rows[i]))
      && (Distinct(header) ==> forall i :: 0 <= i < |rows| ==>
            Keys(rows[i]) == header && Values(rows[i]) == NonBlank(records)[i])
  {
    if records != [] {
      var rest := BuildRows(header, records[1..], index + 1);
      if records[0] == [] {
        assert BuildRows(header, records, index) == rest;
        assert NonBlank(records) == NonBlank(records[1..]);
        BuildRowsShape(header, records[1..], index + 1);
      } else {
        assert |records[0]| == |header|;
        var row := DictOf(Zip(header, records[0]));
        assert rest.Ok?;
        BuildRowsShape(header, records[1..], index + 1);
        var rows := BuildRows(header, records, index).value;
        assert rows == [row] + rest.value;
        var kept := NonBlank(records);
        assert kept == [records[0]] + NonBlank(records[1..]);
        ZippedRecord(header, records[0]);
        forall i | 0 <= i < |rows|
          ensures DistinctKeys(rows[i])
          ensures Distinct(header) ==> Keys(rows[i]) == header && Values(rows[i]) == kept[i]
        {
          if i > 0 {
            assert rows[i] == rest.value[i - 1];
            assert kept[i] == NonBlank(records[1..])[i - 1];
          }
        }
      }
    }
  }

  /** What a successful deserialise returns: a table with a row for each
      non-blank record after the header, every row a dict, keyed by the
      header when the header names each field once. */
  lemma DeserialiseShape(s: string)
    requires Deserialise(s).Ok?
    ensures var records := ReadAll(SplitLines(s)).value;
      var rows := Deserialise(s).value.rows;
      && Deserialise(s).value.Table?
      && (records == [] ==> rows == [])
      && (records != [] ==> |rows| == |NonBlank(records[1..])|)
      && (forall i :: 0 <= i < |rows| ==> DistinctKeys(rows[i]))
      && (records != [] && Distinct(records[0]) ==> forall i :: 0 <= i < |rows| ==>
            Keys(rows[i]) == records[0] && Values(rows[i]) == NonBlank(records[1..])[i])
  {
    var records := ReadAll(SplitLines(s)).value;
    if records != [] {
      BuildRowsShape(records[0], records[1..], 1);
    }
  }

  /** Serialising fails exactly when the source raises: for a dict (`d[0]`
      is a KeyError), for an empty list (`d[0]` is an IndexError), and for a
      row with a key the first row does not have (DictWriter's ValueError). */
  lemma {:induction false} SerialiseFailures(d: Data)
    ensures d.Object? ==> SerialiseSpec(d) == Err(KeyNotFound)
    ensures d == Table([]) ==> SerialiseSpec(d) == Err(IndexOutOfRange)
    ensures d.Table? && d.rows != [] ==>
      (SerialiseSpec(d).Err? <==> exists i, k :: 0 <= i < |d.rows| && k in Keys(d.rows[i]) && k !in Keys(d.rows[0]))
  {
    if d.Table? && d.rows != [] {
      assert SerialiseSpec(d) == WriteTable(Keys(d.rows[0]), d.rows);
      AllRowValuesFails(Keys(d.rows[0]), d.rows);
    }
  }

  lemma {:induction false} AllRowValuesFails(fieldnames: seq<string>, rows: seq<Row>)
    ensures AllRowValues(fieldnames, rows).Err? <==> exists i, k :: 0 <= i < |rows| && k in Keys(rows[i]) && k !in fieldnames
  {
    if rows != [] {
      AllRowValuesFails(fieldnames, rows[1..]);
      RowValuesFails(fieldnames, rows[0]);
      WrongKeyCons(fieldnames, rows);
    }
  }

  /** DictWriter rejects one row exactly when it has a key outside the fieldnames. */
  lemma RowValuesFails(fieldnames: seq<string>, row: Row)
    ensures RowValues(fieldnames, row).Err? <==> exists k :: k in Keys(row) && k !in fieldnames
  {
    if RowValues(fieldnames, row).Err? {
      var k :| k in WrongFields(fieldnames, row);
    }
  }

  /** A wrong key in some row is one in the first row or one in a later row. */
  lemma WrongKeyCons(fieldnames: seq<string>, rows: seq<Row>)
    requires rows != []
    ensures (exists i, k :: 0 <= i < |rows| && k in Keys(rows[i]) && k !in fieldnames)
      <==> ((exists k :: k in Keys(rows[0]) && k !in fieldnames)
            || (exists i, k :: 0 <= i < |rows[1..]| && k in Keys(rows[1..][i]) && k !in fieldnames))
  {
    if exists i, k :: 0 <= i < |rows| && k in Keys(rows[i]) && k !in fieldnames {
      var i, k :| 0 <= i < |rows| && k in Keys(rows[i]) && k !in fieldnames;
      if i > 0 {
        assert rows[1..][i - 1] == rows[i];
      }
    }
    if exists i, k :: 0 <= i < |rows[1..]| && k in Keys(rows[1..][i]) && k !in fieldnames {
      var i, k :| 0 <= i < |rows[1..]| && k in Keys(rows[1..][i]) && k !in fieldnames;
      assert rows[1..][i] == rows[i + 1];
    }
    if exists k :: k in Keys(rows[0]) && k !in fieldnames {
      var k :| k in Keys(rows[0]) && k !in fieldnames;
      assert 0 <= 0 < |rows| && k in Keys(rows[0]) && k !in fieldnames;
    }
  }

  /** `records` are the lines written for `rows` under `fieldnames`: one per
      row, in order, each the row looked up by every field name in turn
      (`Lookup`: the row's value for that key, or an empty field where the
      row lacks it). */
  predicate FollowsHeader(fieldnames: seq<string>, rows: seq<Row>, records: seq<seq<string>>) {
    && |records| == |rows|
    && forall i :: 0 <= i < |rows| ==> records[i] == Lookup(fieldnames, rows[i])
  }

  /** A successful serialise is the header line (the first row's keys) and
      then a line per row, in order, whose fields follow the header: a row's
      value for that key, or an empty field where the row lacks it. */
  lemma SerialiseLines(rows: seq<Row>)
    requires SerialiseSpec(Table(rows)).Ok?
    ensures |rows| > 0
    ensures exists records: seq<seq<string>> ::
      && SerialiseSpec(Table(rows)) == Ok(WriteRow(Keys(rows[0])) + WriteRows(records))
      && FollowsHeader(Keys(rows[0]), rows, records)
  {
    assert rows != [];
    var fieldnames := Keys(rows[0]);
    assert SerialiseSpec(Table(rows)) == WriteTable(fieldnames, rows);
    var records := AllRowValues(fieldnames, rows).value;
    assert SerialiseSpec(Table(rows)) == Ok(WriteRow(fieldnames) + WriteRows(records));
    AllRowValuesOk(fieldnames, rows);
  }

  lemma {:induction false} AllRowValuesOk(fieldnames: seq<string>, rows: seq<Row>)
    requires AllRowValues(fieldnames, rows).Ok?
    ensures FollowsHeader(fieldnames, rows, AllRowValues(fieldnames, rows).value)
  {
    if rows != [] {
      AllRowValuesCons(fieldnames, rows);
      AllRowValuesOk(fieldnames, rows[1..]);
      FollowsHeaderCons(fieldnames, rows[0], rows[1..], AllRowValues(fieldnames, rows[1..]).value);
      assert [rows[0]] + rows[1..] == rows;
    }
  }

  /** When every row is accepted, the first row's record comes first. */
  lemma AllRowValuesCons(fieldnames: seq<string>, rows: seq<Row>)
    requires rows != [] && AllRowValues(fieldnames, rows).Ok?
    ensures AllRowValues(fieldnames, rows[1..]).Ok?
    ensures AllRowValues(fieldnames, rows).value == [Lookup(fieldnames, rows[0])] + AllRowValues(fieldnames, rows[1..]).value
  {
  }

  lemma FollowsHeaderCons(fieldnames: seq<string>, row: Row, rows: seq<Row>, records: seq<seq<string>>)
    requires FollowsHeader(fieldnames, rows, records)
    ensures FollowsHeader(fieldnames, [row] + rows, [Lookup(fieldnames, row)] + records)
  {
    var all, allRows := [Lookup(fieldnames, row)] + records, [row] + rows;
    forall i | 0 <= i < |allRows| ensures all[i] == Lookup(fieldnames, allRows[i]) {
      if i > 0 {
        assert all[i] == records[i - 1] && allRows[i] == rows[i - 1];
      }
    }
  }

  // ----- round trip -------------------------------------------------------

  /** Rows CSV can carry unchanged: at least one row and one column, every row
      with the first row's keys in the first row's order, no key or value with
      a line boundary (the reader splits the text with `splitlines`), and none
      longer than the reader's field limit. */
  predicate Representable(rows: seq<Row>) {
    && |rows| > 0
    && |rows[0]| > 0
    && DistinctKeys(rows[0])
    && (forall i :: 0 <= i < |rows| ==> Keys(rows[i]) == Keys(rows[0]))
    && (forall i, j :: 0 <= i < |rows| && 0 <= j < |rows[i]| ==>
          NoLineBreaks(rows[i][j].key) && NoLineBreaks(rows[i][j].value)
          && |rows[i][j].key| <= FieldLimit && |rows[i][j].value| <= FieldLimit)
  }

  /** The values of each row. */
  function AllValues(rows: seq<Row>): (records: seq<seq<string>>)
    ensures |records| == |rows|
    ensures forall i :: 0 <= i < |rows| ==> records[i] == Values(rows[i])
  {
    if rows == [] then [] else [Values(rows[0])] + AllValues(rows[1..])
  }

  /** For a row keyed like the header, DictWriter writes exactly its values. */
  lemma RowValuesOfKeyed(fieldnames: seq<string>, row: Row)
    requires Distinct(fieldnames)
    requires Keys(row) == fieldnames
    ensures RowValues(fieldnames, row) == Ok(Values(row))
  {
    assert WrongFields(fieldnames, row) == {};
    forall j | 0 <= j < |fieldnames| ensures Lookup(fieldnames, row)[j] == Values(row)[j] {
      assert row[j].key == fieldnames[j];
      assert fieldnames[j] !in Keys(row[..j]) by {
        forall m | 0 <= m < j ensures Keys(row[..j])[m] != fieldnames[j] {
          assert Keys(row[..j])[m] == fieldnames[m];
        }
      }
    }
    assert Lookup(fieldnames, row) == Values(row);
  }

  /** For rows keyed like the header, DictWriter writes exactly their values. */
  lemma {:induction false} AllRowValuesOfUniform(fieldnames: seq<string>, rows: seq<Row>)
    requires Distinct(fieldnames)
    requires forall i :: 0 <= i < |rows| ==> Keys(rows[i]) == fieldnames
    ensures AllRowValues(fieldnames, rows) == Ok(AllValues(rows))
  {
    if rows != [] {
      RowValuesOfKeyed(fieldnames, rows[0]);
      AllRowValuesOfUniform(fieldnames, rows[1..]);
      assert AllValues(rows) == [Values(rows[0])] + AllValues(rows[1..]);
    }
  }

  /** DictReader rebuilds rows keyed like the header from their values. */
  lemma {:induction false} BuildRowsOfUniform(header: seq<string>, rows: seq<Row>, index: nat)
    requires |header| > 0 && Distinct(header)
    requires KeyedLike(header, rows)
    ensures BuildRows(header, AllValues(rows), index) == Ok(rows)
  {
    if rows != [] {
      KeyedLikeTail(header, rows);
      BuildRowsOfUniform(header, rows[1..], index + 1);
      AllValuesCons(rows);
      BuildRowsStep(header, rows[0], AllValues(rows[1..]), index, rows[1..]);
    }
  }

  /** Every row has exactly the header's keys, in the header's order. */
  predicate KeyedLike(header: seq<string>, rows: seq<Row>) {
    forall i :: 0 <= i < |rows| ==> Keys(rows[i]) == header
  }

  lemma KeyedLikeTail(header: seq<string>, rows: seq<Row>)
    requires KeyedLike(header, rows) && rows != []
    ensures Keys(rows[0]) == header && KeyedLike(header, rows[1..])
    ensures [rows[0]] + rows[1..] == rows
  {
    var tail := rows[1..];
    forall i | 0 <= i < |tail| ensures Keys(tail[i]) == header {
      assert tail[i] == rows[i + 1];
    }
  }

  lemma AllValuesCons(rows: seq<Row>)
    requires rows != []
    ensures AllValues(rows) == [Values(rows[0])] + AllValues(rows[1..])
  {
  }

  /** DictReader turns the values of a row keyed like the header back into
      that row, then goes on with the records after it. */
  lemma BuildRowsStep(header: seq<string>, row: Row, records: seq<seq<string>>, index: nat, rest: seq<Row>)
    requires |header| > 0 && Distinct(header) && Keys(row) == header
    requires BuildRows(header, records, index + 1) == Ok(rest)
    ensures BuildRows(header, [Values(row)] + records, index) == Ok([row] + rest)
  {
    RebuiltRow(header, row);
    var all := [Values(row)] + records;
    assert all[0] == Values(row) && all[1..] == records;
  }

  /** A row keyed like the header is rebuilt from its values. */
  lemma RebuiltRow(header: seq<string>, row: Row)
    requires |header| > 0 && Distinct(header)
    requires Keys(row) == header
    ensures Values(row) != [] && |Values(row)| == |header|
    ensures DictOf(Zip(header, Values(row))) == row
  {
    ZipKeysValues(row);
    assert DistinctKeys(row);
    DictOfDistinct(row);
  }

  /** A table CSV can carry comes back from serialise then deserialise unchanged. */
  lemma RoundTrip(rows: seq<Row>)
    requires Representable(rows)
    ensures SerialiseSpec(Table(rows)).Ok?
    ensures Deserialise(SerialiseSpec(Table(rows)).value) == Ok(Table(rows))
  {
    var fieldnames := Keys(rows[0]);
    assert Distinct(fieldnames);
    AllRowValuesOfUniform(fieldnames, rows);
    var records := [fieldnames] + AllValues(rows);
    assert WriteRows(records) == WriteRow(fieldnames) + WriteRows(AllValues(rows));
    assert SerialiseSpec(Table(rows)) == Ok(WriteRows(records));
    forall k, i | 0 <= k < |records| && 0 <= i < |records[k]|
      ensures |records[k][i]| <= FieldLimit && NoLineBreaks(records[k][i])
    {
      if k == 0 {
        assert records[k][i] == rows[0][i].key;
      } else {
        assert records[k][i] == rows[k - 1][i].value;
      }
    }
    CsvReader.RoundTrip(records);
    assert records[1..] == AllValues(rows);
    BuildRowsOfUniform(fieldnames, rows, 1);
  }

  /** Text that serialise produced is reproduced exactly by deserialising and
      serialising it again, as converting a canonical `.csv` file to `.csv` does. */
  lemma CanonicalTextIsFixed(rows: seq<Row>)
    requires Representable(rows)
    ensures SerialiseSpec(Table(rows)).Ok?
    ensures var text := SerialiseSpec(Table(rows)).value;
      Deserialise(text).Ok? && SerialiseSpec(Deserialise(text).value) == Ok(text)
  {
    RoundTrip(rows);
  }

  // ----- round trip up to dict equality ------------------------------------

  /** Two dicts hold the same keys, whatever their order. */
  ghost predicate SameKeys(a: Row, b: Row) {
    forall k :: k in Keys(a) <==> k in Keys(b)
  }

  /** Python's `==` on dicts: the same keys, each with the same value; the
      order of the keys does not matter. */
  ghost predicate SameDict(a: Row, b: Row) {
    SameKeys(a, b) && forall k :: k in Keys(a) ==> Get(a, k, "") == Get(b, k, "")
  }

  /** Rows that compare `==` to what CSV gives back: at least one row and one
      column, every row a dict holding the first row's keys in any order, and
      no key or value with a line boundary or beyond the field limit. */
  ghost predicate RepresentableAsDicts(rows: seq<Row>) {
    && |rows| > 0
    && |rows[0]| > 0
    && (forall i :: 0 <= i < |rows| ==> DistinctKeys(rows[i]) && SameKeys(rows[i], rows[0]))
    && (forall i, j :: 0 <= i < |rows| && 0 <= j < |rows[i]| ==>
          NoLineBreaks(rows[i][j].key) && NoLineBreaks(rows[i][j].value)
          && |rows[i][j].key| <= FieldLimit && |rows[i][j].value| <= FieldLimit)
  }

  /** The dict DictReader builds from the line written for `row`: the
      header's keys in the header's order, each with the row's value. */
  function InHeaderOrder(header: seq<string>, row: Row): (r: Row)
    ensures Keys(r) == header && Values(r) == Lookup(header, row)
  {
    var r := Zip(header, Lookup(header, row));
    assert Keys(r) == header;
    assert Values(r) == Lookup(header, row);
    r
  }

  function AllInHeaderOrder(header: seq<string>, rows: seq<Row>): (r: seq<Row>)
    ensures |r| == |rows|
    ensures forall i :: 0 <= i < |rows| ==> r[i] == InHeaderOrder(header, rows[i])
  {
    if rows == [] then [] else [InHeaderOrder(header, rows[0])] + AllInHeaderOrder(header, rows[1..])
  }

  /** A table whose rows hold the first row's keys in any order comes back
      from serialise then deserialise as rows that each compare `==` to the
      original dict: the same keys with the same values, now in the order
      of the header line. */
  lemma RoundTripAsDicts(rows: seq<Row>)
    requires RepresentableAsDicts(rows)
    ensures SerialiseSpec(Table(rows)).Ok?
    ensures var back := AllInHeaderOrder(Keys(rows[0]), rows);
      && Deserialise(SerialiseSpec(Table(rows)).value) == Ok(Table(back))
      && |back| == |rows|
      && forall i :: 0 <= i < |rows| ==> SameDict(back[i], rows[i])
  {
    var header := Keys(rows[0]);
    var back := AllInHeaderOrder(header, rows);
    assert Distinct(header);
    HeaderOrderRepresentable(rows);
    RoundTrip(back);
    SameSerialisation(header, rows);
    forall i | 0 <= i < |rows| ensures SameDict(back[i], rows[i]) {
      HeaderOrderSameDict(header, rows[i]);
    }
  }

  /** The rows in header order are written as the original rows are. */
  lemma SameSerialisation(header: seq<string>, rows: seq<Row>)
    requires RepresentableAsDicts(rows) && header == Keys(rows[0])
    ensures SerialiseSpec(Table(rows)) == SerialiseSpec(Table(AllInHeaderOrder(header, rows)))
  {
    var back := AllInHeaderOrder(header, rows);
    assert Distinct(header);
    assert KeyedLike(header, back);
    AllRowValuesOfUniform(header, back);
    forall i | 0 <= i < |rows| ensures KeysWithin(header, rows[i]) {
      assert SameKeys(rows[i], rows[0]);
    }
    AllRowValuesWithin(header, rows);
    assert Keys(back[0]) == header;
  }

  /** Every key of the row is one of the field names. */
  predicate KeysWithin(fieldnames: seq<string>, row: Row) {
    forall k :: k in Keys(row) ==> k in fieldnames
  }

  /** DictWriter writes rows whose keys are all field names as the values of
      those rows put in header order. */
  lemma {:induction false} AllRowValuesWithin(fieldnames: seq<string>, rows: seq<Row>)
    requires forall i :: 0 <= i < |rows| ==> KeysWithin(fieldnames, rows[i])
    ensures AllRowValues(fieldnames, rows) == Ok(AllValues(AllInHeaderOrder(fieldnames, rows)))
  {
    if rows != [] {
      assert KeysWithin(fieldnames, rows[0]);
      assert WrongFields(fieldnames, rows[0]) == {};
      assert forall i :: 0 <= i < |rows[1..]| ==> rows[1..][i] == rows[i + 1];
      AllRowValuesWithin(fieldnames, rows[1..]);
      var back := AllInHeaderOrder(fieldnames, rows);
      assert back[1..] == AllInHeaderOrder(fieldnames, rows[1..]);
      AllValuesCons(back);
    }
  }

  /** The rows in header order are a table CSV carries unchanged. */
  lemma HeaderOrderRepresentable(rows: seq<Row>)
    requires RepresentableAsDicts(rows)
    ensures Representable(AllInHeaderOrder(Keys(rows[0]), rows))
  {
    var header := Keys(rows[0]);
    var back := AllInHeaderOrder(header, rows);
    assert Distinct(header);
    assert Keys(back[0]) == header;
    forall i, j | 0 <= i < |back| && 0 <= j < |back[i]|
      ensures NoLineBreaks(back[i][j].key) && NoLineBreaks(back[i][j].value)
      ensures |back[i][j].key| <= FieldLimit && |back[i][j].value| <= FieldLimit
    {
      assert back[i][j] == Field(header[j], Get(rows[i], header[j], ""));
      assert header[j] == rows[0][j].key;
      if header[j] in Keys(rows[i]) {
        GetIsStored(rows[i], header[j], "");
      }
    }
  }

  /** A row and its header-order copy compare `==`. */
  lemma HeaderOrderSameDict(header: seq<string>, row: Row)
    requires Distinct(header)
    requires forall k :: k in Keys(row) <==> k in header
    ensures SameDict(InHeaderOrder(header, row), row)
  {
    var r := InHeaderOrder(header, row);
    forall k | k in Keys(r) ensures Get(r, k, "") == Get(row, k, "") {
      var j :| 0 <= j < |header| && header[j] == k;
      assert r[j] == Field(k, Get(row, k, ""));
      FirstWithKey(header, r, j);
    }
  }

  /** Under distinct keys, the field at `j` is the first with its key. */
  lemma FirstWithKey(header: seq<string>, r: Row, j: nat)
    requires Distinct(header) && Keys(r) == header && j < |header|
    ensures header[j] !in Keys(r[..j])
  {
    forall m | 0 <= m < j ensures Keys(r[..j])[m] != header[j] {
      assert Keys(r[..j])[m] == header[m];
    }
  }
}
