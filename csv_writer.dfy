/**
 * The line format of `csv.writer` with the default "excel" dialect, which
 * `csv.DictWriter` uses: fields separated by ',', minimal quoting with '"',
 * embedded quotes doubled, every line ended by "\r\n".
 */
module CsvWriter {

  const Delimiter: char := ','
  const QuoteChar: char := '"'
  const LineTerminator: string := "\r\n"

  /** The characters that force a field into quotes: the delimiter, the
      quote character, and the characters of the line terminator. */
  predicate IsSpecial(c: char) {
    c == Delimiter || c == QuoteChar || c == '\r' || c == '\n'
  }

  predicate NeedsQuotes(v: string) {
    exists i :: 0 <= i < |v| && IsSpecial(v[i])
  }

  /** The field's characters with every quote character written twice. */
  function Doubled(v: string): (d: string)
    ensures |d| >= |v|
  {
    if v == [] then []
    else (if v[0] == QuoteChar then [QuoteChar, QuoteChar] else [v[0]]) + Doubled(v[1..])
  }

  /** Doubling adds no character besides the quote character. */
  lemma {:induction false} DoubledChars(v: string, c: char)
    requires c in Doubled(v)
    ensures c == QuoteChar || c in v
  {
    if v != [] {
      var head := if v[0] == QuoteChar then [QuoteChar, QuoteChar] else [v[0]];
      assert Doubled(v) == head + Doubled(v[1..]);
      if c !in head {
        DoubledChars(v[1..], c);
        if c != QuoteChar {
          var j :| 0 <= j < |v[1..]| && v[1..][j] == c;
          assert v[j + 1] == c;
        }
      }
    }
  }

  /** Doubling changes nothing in a field without quote characters. */
  lemma {:induction false} DoubledNoQuote(v: string)
    requires QuoteChar !in v
    ensures Doubled(v) == v
  {
    if v != [] {
      DoubledNoQuote(v[1..]);
      assert [v[0]] + v[1..] == v;
    }
  }

  /** One field as it appears on the line (see `FormatFieldQuoting`). */
  function FormatField(v: string): (t: string)
    ensures |t| >= |v|
  {
    if NeedsQuotes(v) then [QuoteChar] + Doubled(v) + [QuoteChar] else v
  }

  /** A field is quoted exactly when it needs quotes; otherwise it is written
      as it is, and when quoted it is closed by a quote as well. */
  lemma FormatFieldQuoting(v: string)
    ensures var t := FormatField(v);
      && ((|t| > 0 && t[0] == QuoteChar) <==> NeedsQuotes(v))
      && (!NeedsQuotes(v) ==> t == v)
      && (NeedsQuotes(v) ==> |t| >= |v| + 2 && t[|t| - 1] == QuoteChar)
  {
    if !NeedsQuotes(v) && v != [] {
      assert !IsSpecial(v[0]);
    }
  }

  /** The fields, each formatted, separated by the delimiter. */
  function JoinFields(fields: seq<string>): string
  {
    if fields == [] then ""
    else if |fields| == 1 then FormatField(fields[0])
    else FormatField(fields[0]) + [Delimiter] + JoinFields(fields[1..])
  }

  /** A record without its terminator.  A record made of a single empty field
      is written as a pair of quotes, so that it cannot be read back as a
      blank line. */
  function FormatRecord(fields: seq<string>): (t: string)
    ensures fields != [] ==> t != []
  {
    if fields == [""] then [QuoteChar, QuoteChar] else JoinFields(fields)
  }

  /** `writer.writerow(fields)` */
  function WriteRow(fields: seq<string>): string
  {
    FormatRecord(fields) + LineTerminator
  }

  /** The concatenated output of `writerow` for each record in turn. */
  function WriteRows(records: seq<seq<string>>): (t: string)
    ensures |t| >= 2 * |records|
  {
    if records == [] then "" else WriteRow(records[0]) + WriteRows(records[1..])
  }

  /** Writing one more record appends its line. */
  lemma {:induction false} WriteRowsAppend(records: seq<seq<string>>, last: seq<string>)
    ensures WriteRows(records + [last]) == WriteRows(records) + WriteRow(last)
  {
    if records != [] {
      assert (records + [last])[1..] == records[1..] + [last];
      WriteRowsAppend(records[1..], last);
    }
  }

  /** Every character the writer puts on a line is a delimiter, a quote, or
      a character of one of the fields. */
  lemma {:induction false} FormatRecordChars(fields: seq<string>, c: char)
    requires c in FormatRecord(fields)
    ensures c == Delimiter || c == QuoteChar || exists i :: 0 <= i < |fields| && c in fields[i]
  {
    if fields != [""] {
      JoinFieldsChars(fields, c);
    }
  }

  lemma FormatFieldChars(v: string, c: char)
    requires c in FormatField(v)
    ensures c == QuoteChar || c in v
  {
    if NeedsQuotes(v) {
      var t := FormatField(v);
      var k :| 0 <= k < |t| && t[k] == c;
      if 0 < k < |t| - 1 {
        assert t[k] == Doubled(v)[k - 1];
        DoubledChars(v, c);
      }
    }
  }

  lemma {:induction false} JoinFieldsChars(fields: seq<string>, c: char)
    requires c in JoinFields(fields)
    ensures c == Delimiter || c == QuoteChar || exists i :: 0 <= i < |fields| && c in fields[i]
  {
    if |fields| == 1 {
      FormatFieldChars(fields[0], c);
    } else if |fields| > 1 {
      var head := FormatField(fields[0]);
      var tail := JoinFields(fields[1..]);
      assert JoinFields(fields) == head + [Delimiter] + tail;
      if c in head {
        FormatFieldChars(fields[0], c);
      } else if c in tail {
        JoinFieldsChars(fields[1..], c);
        if c != Delimiter && c != QuoteChar {
          var i :| 0 <= i < |fields[1..]| && c in fields[1..][i];
          assert c in fields[i + 1];
        }
      }
    }
  }
}
