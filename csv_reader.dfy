/**
 * `csv.reader` with the default "excel" dialect (non-strict) fed with the
 * lines of `str.splitlines()`, as `CsvConverter.deserialise` does: the
 * character-by-character parser of CPython's `_csv` module, one record per
 * iteration, a quoted field carried over to the next line when a line ends
 * inside it.
 */
module CsvReader {
  import opened Errors
  import opened CsvWriter

  /** `csv.field_size_limit()` by default: a field may hold this many characters. */
  const FieldLimit: nat := 131072

  /** The line boundaries of `str.splitlines`. */
  predicate IsLineBreak(c: char) {
    c == '\n' || c == '\r' || c == '\U{0B}' || c == '\U{0C}' || c == '\U{1C}' || c == '\U{1D}'
    || c == '\U{1E}' || c == '\U{85}' || c == '\U{2028}' || c == '\U{2029}'
  }

  predicate NoLineBreaks(s: string) {
    forall i :: 0 <= i < |s| ==> !IsLineBreak(s[i])
  }

  /** The index of the first line boundary in `s`, or `|s|` when there is none. */
  function FirstBreak(s: string): (i: nat)
    ensures i <= |s|
    ensures i < |s| ==> IsLineBreak(s[i])
    ensures forall j :: 0 <= j < i ==> !IsLineBreak(s[j])
  {
    if s == [] || IsLineBreak(s[0]) then 0 else 1 + FirstBreak(s[1..])
  }

  /** `s.splitlines()`: the lines without their boundaries; "\r\n" is one
      boundary, and a final boundary does not start an empty line. */
  function SplitLines(s: string): (lines: seq<string>)
    decreases |s|
    ensures lines == [] <==> s == []
    ensures |lines| <= |s|
  {
    if s == [] then []
    else
      var i := FirstBreak(s);
      if i == |s| then [s]
      else
        var next := if s[i] == '\r' && i + 1 < |s| && s[i + 1] == '\n' then i + 2 else i + 1;
        [s[..i]] + SplitLines(s[next..])
  }

  /** The parser's states (`ParserState` in `_csv.c`, those the excel dialect reaches). */
  datatype Mode = StartRecord | StartField | InField | InQuotedField | QuoteInQuotedField | EatCrnl

  /** The parser: its state, the fields of the record so far, the field being read. */
  datatype Parser = Parser(mode: Mode, fields: seq<string>, field: string)

  /** The messages of the two `csv.Error`s the reader can raise here. */
  const FieldTooLarge: string := "field larger than field limit (131072)"
  const NewlineInUnquotedField: string := "new-line character seen in unquoted field - do you need to open the file with newline=''?"

  /** The parser as `parse_reset` leaves it at the start of every record. */
  const Fresh: Parser := Parser(StartRecord, [], "")

  /** `parse_save_field`, then a move to `mode` */
  function Save(p: Parser, mode: Mode): Parser {
    Parser(mode, p.fields + [p.field], "")
  }

  /** `parse_add_char`, then a move to `mode`; fails once the field is full */
  function Add(p: Parser, c: char, mode: Mode): Result<Parser> {
    if |p.field| >= FieldLimit then Err(CsvReaderError(FieldTooLarge))
    else Ok(Parser(mode, p.fields, p.field + [c]))
  }

  predicate IsNewline(c: char) {
    c == '\n' || c == '\r'
  }

  /** The `START_FIELD` case of `parse_process_char`, which `START_RECORD`
      falls through to for an ordinary character. */
  function StartFieldStep(p: Parser, c: char): Result<Parser> {
    if IsNewline(c) then Ok(Save(p, EatCrnl))
    else if c == QuoteChar then Ok(p.(mode := InQuotedField))
    else if c == Delimiter then Ok(Save(p, StartField))
    else Add(p, c, InField)
  }

  /** `parse_process_char` for an ordinary character. */
  function Step(p: Parser, c: char): (r: Result<Parser>)
    ensures r.Ok? ==> p.fields <= r.value.fields && |r.value.fields| <= |p.fields| + 1
    ensures r.Err? ==> r.error.CsvReaderError?
  {
    match p.mode
    case StartRecord =>
      if IsNewline(c) then Ok(p.(mode := EatCrnl))
      else StartFieldStep(p, c)
    case StartField => StartFieldStep(p, c)
    case InField =>
      if IsNewline(c) then Ok(Save(p, EatCrnl))
      else if c == Delimiter then Ok(Save(p, StartField))
      else Add(p, c, InField)
    case InQuotedField =>
      if c == QuoteChar then Ok(p.(mode := QuoteInQuotedField))
      else Add(p, c, InQuotedField)
    case QuoteInQuotedField =>
      if c == QuoteChar then Add(p, c, InQuotedField)
      else if c == Delimiter then Ok(Save(p, StartField))
      else if IsNewline(c) then Ok(Save(p, EatCrnl))
      else Add(p, c, InField)
    case EatCrnl =>
      if IsNewline(c) then Ok(p)
      else Err(CsvReaderError(NewlineInUnquotedField))
  }

  /** `parse_process_char` for the end-of-line marker that follows every line. */
  function EndOfLine(p: Parser): Parser {
    match p.mode
    case StartRecord => p
    case StartField => Save(p, StartRecord)
    case InField => Save(p, StartRecord)
    case InQuotedField => p
    case QuoteInQuotedField => Save(p, StartRecord)
    case EatCrnl => p.(mode := StartRecord)
  }

  /** The parser after the characters of `s`. */
  function Feed(p: Parser, s: string): (r: Result<Parser>)
    decreases |s|
    ensures r.Err? ==> r.error.CsvReaderError?
  {
    if s == [] then Ok(p)
    else
      var q :- Step(p, s[0]);
      Feed(q, s[1..])
  }

  /** The parser after one whole line and its end-of-line marker. */
  function FeedLine(p: Parser, line: string): (r: Result<Parser>)
    ensures r.Err? ==> r.error.CsvReaderError?
  {
    var q :- Feed(p, line);
    Ok(EndOfLine(q))
  }

  /** The records the reader yields from `lines`, continuing from `p`, the
      parser part-way through a record (or `Fresh` between records).  At the
      end of the input a record still open is yielded when its last field
      has characters or is quoted. */
  function ReadFrom(lines: seq<string>, p: Parser): (r: Result<seq<seq<string>>>)
    decreases |lines|
    ensures r.Err? ==> r.error.CsvReaderError?
  {
    if lines == [] then
      if |p.field| != 0 || p.mode == InQuotedField then Ok([p.fields + [p.field]]) else Ok([])
    else
      var q :- FeedLine(p, lines[0]);
      if q.mode == StartRecord then
        var rest :- ReadFrom(lines[1..], Fresh);
        Ok([q.fields] + rest)
      else
        ReadFrom(lines[1..], q)
  }

  /** `list(csv.reader(lines))` */
  function ReadAll(lines: seq<string>): (r: Result<seq<seq<string>>>)
    ensures r.Err? ==> r.error.CsvReaderError?
  {
    ReadFrom(lines, Fresh)
  }

  // ----- The reader undoes the writer -------------------------------------

  /** Feeding two pieces one after the other is feeding their concatenation. */
  lemma {:induction false} FeedAppend(p: Parser, a: string, b: string)
    decreases |a|
    ensures Feed(p, a + b) == (if Feed(p, a).Ok? then Feed(Feed(p, a).value, b) else Feed(p, a))
  {
    if a != [] {
      assert (a + b)[0] == a[0] && (a + b)[1..] == a[1..] + b;
      var r := Step(p, a[0]);
      if r.Ok? {
        FeedAppend(r.value, a[1..], b);
      }
    } else {
      assert a + b == b;
    }
  }

  /** Inside quotes, a doubled field body reads back as the field. */
  lemma {:induction false} ReadDoubled(fs: seq<string>, f: string, v: string)
    requires |f| + |v| <= FieldLimit
    decreases |v|
    ensures Feed(Parser(InQuotedField, fs, f), Doubled(v)) == Ok(Parser(InQuotedField, fs, f + v))
  {
    if v != [] {
      var p, q := Parser(InQuotedField, fs, f), Parser(InQuotedField, fs, f + [v[0]]);
      var head := if v[0] == QuoteChar then [QuoteChar, QuoteChar] else [v[0]];
      var rest := Doubled(v[1..]);
      assert Doubled(v) == head + rest;
      ReadDoubledChar(fs, f, v[0]);
      FeedAppend(p, head, rest);
      assert Feed(p, head + rest) == Feed(q, rest);
      ReadDoubled(fs, f + [v[0]], v[1..]);
      assert f + [v[0]] + v[1..] == f + v;
    } else {
      assert f + v == f;
    }
  }

  /** Inside quotes, one character as the writer doubles it reads back as
      that character. */
  lemma ReadDoubledChar(fs: seq<string>, f: string, c: char)
    requires |f| < FieldLimit
    ensures Feed(Parser(InQuotedField, fs, f), if c == QuoteChar then [QuoteChar, QuoteChar] else [c])
      == Ok(Parser(InQuotedField, fs, f + [c]))
  {
    var p := Parser(InQuotedField, fs, f);
    var q := Parser(InQuotedField, fs, f + [c]);
    var head := if c == QuoteChar then [QuoteChar, QuoteChar] else [c];
    if c == QuoteChar {
      var p' := p.(mode := QuoteInQuotedField);
      assert Step(p, QuoteChar) == Ok(p');
      assert Step(p', QuoteChar) == Ok(q);
      assert head[1..] == [QuoteChar] && head[1..][1..] == [];
      assert Feed(q, []) == Ok(q);
      assert Feed(p', head[1..]) == Ok(q);
    } else {
      assert Step(p, c) == Ok(q);
      assert head[1..] == [];
    }
  }

  /** Outside quotes, a field with no special character reads back as itself. */
  lemma {:induction false} ReadPlain(fs: seq<string>, f: string, v: string)
    requires |f| + |v| <= FieldLimit
    requires !NeedsQuotes(v)
    decreases |v|
    ensures Feed(Parser(InField, fs, f), v) == Ok(Parser(InField, fs, f + v))
  {
    if v != [] {
      assert !IsSpecial(v[0]);
      assert !NeedsQuotes(v[1..]) by {
        forall i | 0 <= i < |v[1..]| ensures !IsSpecial(v[1..][i]) {
          assert v[1..][i] == v[i + 1];
        }
      }
      assert Feed(Parser(InField, fs, f), v) == Feed(Parser(InField, fs, f + [v[0]]), v[1..]);
      ReadPlain(fs, f + [v[0]], v[1..]);
      assert f + [v[0]] + v[1..] == f + v;
    } else {
      assert f + v == f;
    }
  }

  /** The parser just after a field `v` written by `FormatField`, with the
      fields `fs` before it. */
  function AfterField(fs: seq<string>, v: string): Parser {
    if NeedsQuotes(v) then Parser(QuoteInQuotedField, fs, v)
    else if v == [] then Parser(StartField, fs, "")
    else Parser(InField, fs, v)
  }

  /** A formatted field, read from the start of a field, leaves the parser
      holding exactly that field. */
  lemma ReadField(fs: seq<string>, v: string)
    requires |v| <= FieldLimit
    ensures Feed(Parser(StartField, fs, ""), FormatField(v)) == Ok(AfterField(fs, v))
  {
    if NeedsQuotes(v) {
      ReadQuotedField(fs, v);
    } else if v != [] {
      ReadPlainField(fs, v);
    }
  }

  /** A field the writer quotes reads back through its quotes. */
  lemma ReadQuotedField(fs: seq<string>, v: string)
    requires |v| <= FieldLimit && NeedsQuotes(v)
    ensures Feed(Parser(StartField, fs, ""), FormatField(v)) == Ok(AfterField(fs, v))
  {
    var p, quoted := Parser(StartField, fs, ""), Doubled(v) + [QuoteChar];
    OpenQuote(fs);
    ReadQuotedBody(fs, v);
    FeedAppend(p, [QuoteChar], quoted);
    assert FormatField(v) == [QuoteChar] + quoted;
  }

  /** Inside quotes, the doubled field and the closing quote leave the
      field pending. */
  lemma ReadQuotedBody(fs: seq<string>, v: string)
    requires |v| <= FieldLimit && NeedsQuotes(v)
    ensures Feed(Parser(InQuotedField, fs, ""), Doubled(v) + [QuoteChar]) == Ok(AfterField(fs, v))
  {
    ReadDoubledField(fs, v);
    CloseQuote(fs, v);
    FeedThen(Parser(InQuotedField, fs, ""), Doubled(v), [QuoteChar], Parser(InQuotedField, fs, v));
  }

  /** Inside quotes, a whole doubled field read from its start leaves the
      field pending. */
  lemma ReadDoubledField(fs: seq<string>, v: string)
    requires |v| <= FieldLimit
    ensures Feed(Parser(InQuotedField, fs, ""), Doubled(v)) == Ok(Parser(InQuotedField, fs, v))
  {
    EmptyThen(v);
    ReadDoubled(fs, "", v);
  }

  /** The empty field followed by `v` is `v`, stated as a fact the proofs
      about `Feed` can cite. */
  lemma EmptyThen(v: string)
    ensures "" + v == v
  {
  }

  /** Feeding `a` and then `b` is feeding `a + b`, when `a` succeeds. */
  lemma FeedThen(p: Parser, a: string, b: string, q: Parser)
    requires Feed(p, a) == Ok(q)
    ensures Feed(p, a + b) == Feed(q, b)
  {
    FeedAppend(p, a, b);
  }

  /** An opening quote at the start of a field enters the quoted field. */
  lemma OpenQuote(fs: seq<string>)
    ensures Feed(Parser(StartField, fs, ""), [QuoteChar]) == Ok(Parser(InQuotedField, fs, ""))
  {
    var inq := Parser(InQuotedField, fs, "");
    assert Step(Parser(StartField, fs, ""), QuoteChar) == Ok(inq);
    assert Feed(inq, [QuoteChar][1..]) == Ok(inq);
  }

  /** The closing quote leaves the field pending. */
  lemma CloseQuote(fs: seq<string>, v: string)
    requires NeedsQuotes(v)
    ensures Feed(Parser(InQuotedField, fs, v), [QuoteChar]) == Ok(AfterField(fs, v))
  {
    assert Step(Parser(InQuotedField, fs, v), QuoteChar) == Ok(AfterField(fs, v));
    assert Feed(AfterField(fs, v), [QuoteChar][1..]) == Ok(AfterField(fs, v));
  }

  /** A non-empty field the writer leaves unquoted reads back character by
      character. */
  lemma ReadPlainField(fs: seq<string>, v: string)
    requires |v| <= FieldLimit && !NeedsQuotes(v) && v != []
    ensures Feed(Parser(StartField, fs, ""), FormatField(v)) == Ok(AfterField(fs, v))
  {
    var p := Parser(StartField, fs, "");
    assert !IsSpecial(v[0]);
    var q := Parser(InField, fs, [v[0]]);
    assert !IsNewline(v[0]) && v[0] != QuoteChar && v[0] != Delimiter;
    assert "" + [v[0]] == [v[0]];
    assert Add(p, v[0], InField) == Ok(q);
    assert Step(p, v[0]) == Ok(q);
    assert !NeedsQuotes(v[1..]) by {
      forall i | 0 <= i < |v[1..]| ensures !IsSpecial(v[1..][i]) {
        assert v[1..][i] == v[i + 1];
      }
    }
    ReadPlain(fs, [v[0]], v[1..]);
    assert [v[0]] + v[1..] == v;
    assert Feed(p, v) == Feed(q, v[1..]);
  }

  /** A delimiter after a field saves it. */
  lemma DelimiterAfterField(fs: seq<string>, v: string)
    ensures Step(AfterField(fs, v), Delimiter) == Ok(Parser(StartField, fs + [v], ""))
  {
  }

  /** The end of the line after a field saves it and ends the record. */
  lemma EndOfLineAfterField(fs: seq<string>, v: string)
    ensures EndOfLine(AfterField(fs, v)) == Parser(StartRecord, fs + [v], "")
  {
  }

  /** Joined fields, read from the start of a field, leave every field but
      the last saved and the last one pending. */
  lemma {:induction false} ReadJoined(fs: seq<string>, vs: seq<string>)
    requires |vs| > 0
    requires forall i :: 0 <= i < |vs| ==> |vs[i]| <= FieldLimit
    decreases |vs|
    ensures Feed(Parser(StartField, fs, ""), JoinFields(vs)) == Ok(AfterField(fs + vs[..|vs| - 1], vs[|vs| - 1]))
  {
    var p := Parser(StartField, fs, "");
    ReadField(fs, vs[0]);
    if |vs| > 1 {
      var head := FormatField(vs[0]);
      var tail := JoinFields(vs[1..]);
      FeedAppend(p, head, [Delimiter] + tail);
      FeedAppend(AfterField(fs, vs[0]), [Delimiter], tail);
      DelimiterAfterField(fs, vs[0]);
      ReadJoined(fs + [vs[0]], vs[1..]);
      assert head + [Delimiter] + tail == head + ([Delimiter] + tail);
      assert fs + [vs[0]] + vs[1..][..|vs[1..]| - 1] == fs + vs[..|vs| - 1];
    } else {
      assert fs + vs[..0] == fs;
    }
  }

  /** A record as the writer formats it is one line that the reader reads
      back as exactly that record: the empty record as a blank line, the
      single empty field through its quotes. */
  lemma ReadFormattedRecord(fields: seq<string>)
    requires forall i :: 0 <= i < |fields| ==> |fields[i]| <= FieldLimit
    ensures FeedLine(Fresh, FormatRecord(fields)) == Ok(Parser(StartRecord, fields, ""))
  {
    if fields == [""] {
      ReadSingleEmptyField();
    } else if fields != [] {
      ReadJoinedRecord(fields);
    }
  }

  lemma ReadSingleEmptyField()
    ensures FeedLine(Fresh, FormatRecord([""])) == Ok(Parser(StartRecord, [""], ""))
  {
    var inq := Parser(InQuotedField, [], "");
    var qiq := Parser(QuoteInQuotedField, [], "");
    var text := FormatRecord([""]);
    assert text == [QuoteChar, QuoteChar];
    assert Step(Fresh, QuoteChar) == Ok(inq);
    assert Step(inq, QuoteChar) == Ok(qiq);
    assert Feed(qiq, text[2..]) == Ok(qiq);
    assert Feed(inq, text[1..]) == Ok(qiq);
    assert Feed(Fresh, text) == Ok(qiq);
    assert [] + [""] == [""];
  }

  lemma ReadJoinedRecord(fields: seq<string>)
    requires |fields| > 0 && fields != [""]
    requires forall i :: 0 <= i < |fields| ==> |fields[i]| <= FieldLimit
    ensures FeedLine(Fresh, FormatRecord(fields)) == Ok(Parser(StartRecord, fields, ""))
  {
    var start := Parser(StartField, [], "");
    var t := JoinFields(fields);
    assert FormatRecord(fields) == t;
    ReadJoined([], fields);
    var n := |fields| - 1;
    assert [] + fields[..n] + [fields[n]] == fields;
    EndOfLineAfterField([] + fields[..n], fields[n]);
    JoinedStart(fields);
    assert Feed(Fresh, t) == Feed(start, t) by {
      assert Step(Fresh, t[0]) == Step(start, t[0]);
    }
  }

  /** A record other than a single empty field does not start with a line end. */
  lemma JoinedStart(fields: seq<string>)
    requires |fields| > 0 && fields != [""]
    ensures var t := JoinFields(fields); t != [] && !IsNewline(t[0])
  {
    var t := JoinFields(fields);
    var v := fields[0];
    if |fields| == 1 {
      assert t == FormatField(v);
    } else {
      assert t == FormatField(v) + [Delimiter] + JoinFields(fields[1..]);
    }
    if NeedsQuotes(v) {
      assert t[0] == QuoteChar;
    } else if v != [] {
      assert t[0] == v[0] && !IsSpecial(v[0]);
    } else {
      assert |fields| > 1;
      assert t[0] == Delimiter;
    }
  }

  /** The lines the writer formats for several records, terminators aside. */
  function FormatRecords(records: seq<seq<string>>): (lines: seq<string>)
    ensures |lines| == |records|
    ensures forall k :: 0 <= k < |records| ==> lines[k] == FormatRecord(records[k])
  {
    if records == [] then [] else [FormatRecord(records[0])] + FormatRecords(records[1..])
  }

  /** Lines that are formatted records are read back record for record. */
  lemma {:induction false} ReadFormattedLines(records: seq<seq<string>>)
    requires forall k, i :: 0 <= k < |records| && 0 <= i < |records[k]| ==> |records[k][i]| <= FieldLimit
    ensures ReadAll(FormatRecords(records)) == Ok(records)
  {
    if records != [] {
      var lines := FormatRecords(records);
      ReadFormattedRecord(records[0]);
      ReadFormattedLines(records[1..]);
      assert lines[1..] == FormatRecords(records[1..]);
      assert [records[0]] + records[1..] == records;
    }
  }

  /** A line without boundaries, ended by "\r\n", splits off as one line. */
  lemma SplitFirstLine(line: string, rest: string)
    requires NoLineBreaks(line)
    ensures SplitLines(line + LineTerminator + rest) == [line] + SplitLines(rest)
  {
    var s := line + LineTerminator + rest;
    assert FirstBreak(s) == |line| by {
      assert s[|line|] == '\r';
      assert forall j :: 0 <= j < |line| ==> s[j] == line[j];
    }
    assert s[..|line|] == line;
    assert s[|line| + 2..] == rest;
  }

  /** The text the writer produces for several records splits into their lines. */
  lemma {:induction false} SplitWrittenRows(records: seq<seq<string>>)
    requires forall k :: 0 <= k < |records| ==> NoLineBreaks(FormatRecord(records[k]))
    ensures SplitLines(WriteRows(records)) == FormatRecords(records)
  {
    if records != [] {
      assert WriteRows(records) == FormatRecord(records[0]) + LineTerminator + WriteRows(records[1..]);
      SplitFirstLine(FormatRecord(records[0]), WriteRows(records[1..]));
      SplitWrittenRows(records[1..]);
    }
  }

  /** No field with a line boundary makes no line with one. */
  lemma FormatRecordNoLineBreaks(fields: seq<string>)
    requires forall i :: 0 <= i < |fields| ==> NoLineBreaks(fields[i])
    ensures NoLineBreaks(FormatRecord(fields))
  {
    var t := FormatRecord(fields);
    forall j | 0 <= j < |t| ensures !IsLineBreak(t[j]) {
      FormatRecordChars(fields, t[j]);
      if t[j] != Delimiter && t[j] != QuoteChar {
        var i :| 0 <= i < |fields| && t[j] in fields[i];
        var m :| 0 <= m < |fields[i]| && fields[i][m] == t[j];
      }
    }
  }

  /** Records whose fields have no line boundary survive being written and
      read back. */
  lemma RoundTrip(records: seq<seq<string>>)
    requires forall k, i :: 0 <= k < |records| && 0 <= i < |records[k]| ==> |records[k][i]| <= FieldLimit && NoLineBreaks(records[k][i])
    ensures ReadAll(SplitLines(WriteRows(records))) == Ok(records)
  {
    forall k | 0 <= k < |records| ensures NoLineBreaks(FormatRecord(records[k])) {
      FormatRecordNoLineBreaks(records[k]);
    }
    SplitWrittenRows(records);
    ReadFormattedLines(records);
  }
}
