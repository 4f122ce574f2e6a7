/**
 * `JsonConverter.serialise`: `json.dumps(d)` with its defaults
 * (`ensure_ascii=True`, separators ", " and ": ") for records whose keys and
 * values are strings.  A reader for the JSON text it produces (strings as in
 * section 7 of RFC 8259, the array and object layout `json.dumps` uses) is
 * defined beside it and undoes it.
 */
module JsonConverter {
  import opened Errors
  import opened Records

  // ----- strings ----------------------------------------------------------

  /** `Py_hexdigits[d]`: a lower-case hexadecimal digit. */
  function HexDigit(d: int): (c: char)
    requires 0 <= d < 16
    ensures '0' <= c <= '9' || 'a' <= c <= 'f'
    ensures DigitValue(c) == d
  {
    if d < 10 then ('0' as int + d) as char else ('a' as int + d - 10) as char
  }

  /** The four hexadecimal digits of a UTF-16 code unit, most significant first. */
  function Hex4(n: int): (h: string)
    requires 0 <= n < 0x10000
    ensures |h| == 4
  {
    [HexDigit(n / 0x1000), HexDigit(n / 0x100 % 0x10), HexDigit(n / 0x10 % 0x10), HexDigit(n % 0x10)]
  }

  /** The UTF-16 high surrogate of a character beyond the Basic
      Multilingual Plane. */
  function HighSurrogate(n: int): (u: int)
    requires 0x10000 <= n < 0x110000
    ensures 0xD800 <= u < 0xDC00
  {
    0xD7C0 + n / 0x400
  }

  /** The UTF-16 low surrogate of a character beyond the Basic
      Multilingual Plane. */
  function LowSurrogate(n: int): (u: int)
    requires 0x10000 <= n < 0x110000
    ensures 0xDC00 <= u < 0xE000
  {
    0xDC00 + n % 0x400
  }

  /** `\uXXXX` for one UTF-16 code unit. */
  function UnicodeEscape(n: int): (e: string)
    requires 0 <= n < 0x10000
    ensures |e| == 6
  {
    "\\u" + Hex4(n)
  }

  /** Printable ASCII: what `ensure_ascii` guarantees of the output. */
  predicate IsAscii(s: string) {
    forall i :: 0 <= i < |s| ==> ' ' <= s[i] <= '~'
  }

  /** `S_CHAR`: the characters written as they are, printable ASCII other
      than the backslash and the quote. */
  predicate IsPlain(c: char) {
    ' ' <= c <= '~' && c != '\\' && c != '"'
  }

  /** One character of a string as `ascii_escape_unichar` writes it: a plain
      character as itself, the seven characters with a short escape by that
      escape, a character beyond the Basic Multilingual Plane as the
      `\uXXXX` escapes of its UTF-16 surrogate pair, and every other one as
      a single `\uXXXX`. */
  function EscapeChar(c: char): (e: string)
    ensures |e| > 0
    ensures IsPlain(c) <==> e == [c]
  {
    if IsPlain(c) then [c]
    else if c == '\\' then "\\\\"
    else if c == '"' then "\\\""
    else if c == '\U{08}' then "\\b"
    else if c == '\U{0C}' then "\\f"
    else if c == '\n' then "\\n"
    else if c == '\r' then "\\r"
    else if c == '\t' then "\\t"
    else if c as int >= 0x10000 then
      UnicodeEscape(HighSurrogate(c as int)) + UnicodeEscape(LowSurrogate(c as int))
    else UnicodeEscape(c as int)
  }

  /** The characters of `s`, each escaped. */
  function EscapeAll(s: string): (e: string)
    ensures |e| >= |s|
  {
    if s == [] then "" else EscapeChar(s[0]) + EscapeAll(s[1..])
  }

  /** `encode_basestring_ascii(s)`: the escaped characters in double quotes. */
  function EncodeString(s: string): string
  {
    "\"" + EscapeAll(s) + "\""
  }

  // ----- arrays and objects -----------------------------------------------

  /** `"key": "value"` */
  function EncodePair(f: Field): string
  {
    EncodeString(f.key) + ": " + EncodeString(f.value)
  }

  /** The pairs of a dict, separated by ", ". */
  function EncodePairs(row: Row): string
  {
    if row == [] then ""
    else if |row| == 1 then EncodePair(row[0])
    else EncodePair(row[0]) + ", " + EncodePairs(row[1..])
  }

  /** A dict: `{}` when it is empty. */
  function EncodeRow(row: Row): string
  {
    "{" + EncodePairs(row) + "}"
  }

  /** The dicts of a list, separated by ", ". */
  function EncodeRows(rows: seq<Row>): string
  {
    if rows == [] then ""
    else if |rows| == 1 then EncodeRow(rows[0])
    else EncodeRow(rows[0]) + ", " + EncodeRows(rows[1..])
  }

  /** `JsonConverter.serialise(d)`: `json.dumps(d)`.  It cannot fail on
      string records. */
  function Serialise(d: Data): (t: string)
    ensures |t| >= 2
    ensures t[0] == (if d.Table? then '[' else '{') && t[|t| - 1] == (if d.Table? then ']' else '}')
  {
    match d
    case Table(rows) => "[" + EncodeRows(rows) + "]"
    case Object(row) => EncodeRow(row)
  }

  // ----- the output is ASCII ---------------------------------------------

  lemma AsciiJoin(a: string, b: string)
    requires IsAscii(a) && IsAscii(b)
    ensures IsAscii(a + b)
  {
    assert forall i :: |a| <= i < |a + b| ==> (a + b)[i] == b[i - |a|];
  }

  /** Every escape is printable ASCII. */
  lemma EscapeCharAscii(c: char)
    ensures IsAscii(EscapeChar(c))
  {
    if c as int >= 0x10000 {
      var high, low := HighSurrogate(c as int), LowSurrogate(c as int);
      EscapeWide(c);
      UnicodeEscapeAscii(high);
      UnicodeEscapeAscii(low);
      AsciiJoin(UnicodeEscape(high), UnicodeEscape(low));
    } else if !IsPlain(c) && c !in "\\\"\U{08}\U{0C}\n\r\t" {
      UnicodeEscapeAscii(c as int);
    }
  }

  lemma UnicodeEscapeAscii(n: int)
    requires 0 <= n < 0x10000
    ensures IsAscii(UnicodeEscape(n))
  {
  }

  lemma {:induction false} EscapeAllAscii(s: string)
    ensures IsAscii(EscapeAll(s))
  {
    if s != [] {
      EscapeCharAscii(s[0]);
      EscapeAllAscii(s[1..]);
      AsciiJoin(EscapeChar(s[0]), EscapeAll(s[1..]));
    }
  }

  lemma EncodePairAscii(f: Field)
    ensures IsAscii(EncodePair(f))
  {
    EscapeAllAscii(f.key);
    EscapeAllAscii(f.value);
    var k, v := EscapeAll(f.key), EscapeAll(f.value);
    AsciiJoin("\"", k);
    AsciiJoin("\"" + k, "\"");
    AsciiJoin("\"", v);
    AsciiJoin("\"" + v, "\"");
    AsciiJoin(EncodeString(f.key), ": ");
    AsciiJoin(EncodeString(f.key) + ": ", EncodeString(f.value));
  }

  lemma {:induction false} EncodePairsAscii(row: Row)
    ensures IsAscii(EncodePairs(row))
  {
    if |row| == 1 {
      EncodePairAscii(row[0]);
    } else if |row| > 1 {
      EncodePairAscii(row[0]);
      EncodePairsAscii(row[1..]);
      AsciiJoin(EncodePair(row[0]), ", ");
      AsciiJoin(EncodePair(row[0]) + ", ", EncodePairs(row[1..]));
    }
  }

  lemma EncodeRowAscii(row: Row)
    ensures IsAscii(EncodeRow(row))
  {
    EncodePairsAscii(row);
    AsciiJoin("{", EncodePairs(row));
    AsciiJoin("{" + EncodePairs(row), "}");
  }

  lemma {:induction false} EncodeRowsAscii(rows: seq<Row>)
    ensures IsAscii(EncodeRows(rows))
  {
    if |rows| == 1 {
      EncodeRowAscii(rows[0]);
    } else if |rows| > 1 {
      EncodeRowAscii(rows[0]);
      EncodeRowsAscii(rows[1..]);
      AsciiJoin(EncodeRow(rows[0]), ", ");
      AsciiJoin(EncodeRow(rows[0]) + ", ", EncodeRows(rows[1..]));
    }
  }

  /** `ensure_ascii`: whatever the records hold, the text is printable ASCII. */
  lemma SerialiseAscii(d: Data)
    ensures IsAscii(Serialise(d))
  {
    match d
    case Table(rows) =>
      EncodeRowsAscii(rows);
      AsciiJoin("[", EncodeRows(rows));
      AsciiJoin("[" + EncodeRows(rows), "]");
    case Object(row) =>
      EncodeRowAscii(row);
  }

  // ----- the reader -------------------------------------------------------

  /** The value of a hexadecimal digit of either case, or -1. */
  function DigitValue(c: char): (d: int)
    ensures -1 <= d < 16
  {
    if '0' <= c <= '9' then c as int - '0' as int
    else if 'a' <= c <= 'f' then c as int - 'a' as int + 10
    else if 'A' <= c <= 'F' then c as int - 'A' as int + 10
    else -1
  }

  predicate IsHex4(s: string) {
    |s| == 4 && forall i :: 0 <= i < 4 ==> DigitValue(s[i]) >= 0
  }

  function HexValue(s: string): (n: int)
    requires IsHex4(s)
    ensures 0 <= n < 0x10000
  {
    DigitValue(s[0]) * 0x1000 + DigitValue(s[1]) * 0x100 + DigitValue(s[2]) * 0x10 + DigitValue(s[3])
  }

  /** One character of a string body, and how many characters of `s` spell
      it: an unescaped character other than the quote, the backslash and a
      control character; a short escape; a `\uXXXX` escape of a character
      outside the surrogate range; or a high and a low surrogate escape that
      together name a character beyond the Basic Multilingual Plane. */
  function ReadUnit(s: string): (r: Option<(char, nat)>)
    ensures r.Some? ==> 1 <= r.value.1 <= |s|
  {
    if s == [] then None
    else if s[0] != '\\' then
      if s[0] == '"' || s[0] < ' ' then None else Some((s[0], 1))
    else if |s| < 2 then None
    else if s[1] == '"' then Some(('"', 2))
    else if s[1] == '\\' then Some(('\\', 2))
    else if s[1] == '/' then Some(('/', 2))
    else if s[1] == 'b' then Some(('\U{08}', 2))
    else if s[1] == 'f' then Some(('\U{0C}', 2))
    else if s[1] == 'n' then Some(('\n', 2))
    else if s[1] == 'r' then Some(('\r', 2))
    else if s[1] == 't' then Some(('\t', 2))
    else if s[1] == 'u' && |s| >= 6 && IsHex4(s[2..6]) then
      var high := HexValue(s[2..6]);
      if 0xD800 <= high < 0xDC00 then
        if |s| >= 12 && s[6] == '\\' && s[7] == 'u' && IsHex4(s[8..12])
           && 0xDC00 <= HexValue(s[8..12]) < 0xE000
        then Some(((0x10000 + (high - 0xD800) * 0x400 + (HexValue(s[8..12]) - 0xDC00)) as char, 12))
        else None
      else if 0xDC00 <= high < 0xE000 then None
      else Some((high as char, 6))
    else None
  }

  /** A string body up to its closing quote: the characters it spells and
      the text after the quote. */
  function ReadChars(s: string): (r: Option<(string, string)>)
    ensures r.Some? ==> |r.value.1| < |s|
    decreases |s|
  {
    if s == [] then None
    else if s[0] == '"' then Some(("", s[1..]))
    else
      var unit :- ReadUnit(s);
      var tail :- ReadChars(s[unit.1..]);
      Some(([unit.0] + tail.0, tail.1))
  }

  /** A quoted string, and the text after it. */
  function ReadString(s: string): (r: Option<(string, string)>)
    ensures r.Some? ==> |r.value.1| < |s|
  {
    if s != [] && s[0] == '"' then ReadChars(s[1..]) else None
  }

  predicate StartsWith(s: string, prefix: string) {
    |prefix| <= |s| && s[..|prefix|] == prefix
  }

  function ReadPair(s: string): (r: Option<(Field, string)>)
    ensures r.Some? ==> |r.value.1| < |s|
  {
    var key :- ReadString(s);
    if !StartsWith(key.1, ": ") then None
    else
      var value :- ReadString(key.1[2..]);
      Some((Field(key.0, value.0), value.1))
  }

  /** The pairs after the first one, up to and including the closing brace. */
  function ReadMorePairs(s: string): (r: Option<(Row, string)>)
    ensures r.Some? ==> |r.value.1| < |s|
    decreases |s|
  {
    if StartsWith(s, "}") then Some(([], s[1..]))
    else if StartsWith(s, ", ") then
      var pair :- ReadPair(s[2..]);
      var more :- ReadMorePairs(pair.1);
      Some(([pair.0] + more.0, more.1))
    else None
  }

  function ReadRow(s: string): (r: Option<(Row, string)>)
    ensures r.Some? ==> |r.value.1| < |s|
  {
    if StartsWith(s, "{}") then Some(([], s[2..]))
    else if StartsWith(s, "{") then
      var pair :- ReadPair(s[1..]);
      var more :- ReadMorePairs(pair.1);
      Some(([pair.0] + more.0, more.1))
    else None
  }

  /** The dicts after the first one, up to and including the closing bracket. */
  function ReadMoreRows(s: string): (r: Option<(seq<Row>, string)>)
    ensures r.Some? ==> |r.value.1| < |s|
    decreases |s|
  {
    if StartsWith(s, "]") then Some(([], s[1..]))
    else if StartsWith(s, ", ") then
      var row :- ReadRow(s[2..]);
      var more :- ReadMoreRows(row.1);
      Some(([row.0] + more.0, more.1))
    else None
  }

  function ReadRows(s: string): (r: Option<(seq<Row>, string)>)
    ensures r.Some? ==> |r.value.1| < |s|
  {
    if StartsWith(s, "[]") then Some(([], s[2..]))
    else if StartsWith(s, "[") then
      var row :- ReadRow(s[1..]);
      var more :- ReadMoreRows(row.1);
      Some(([row.0] + more.0, more.1))
    else None
  }

  /** The records a whole text in that layout spells: a list of dicts or a
      single dict, with nothing after it. */
  function Read(s: string): Option<Data>
  {
    if StartsWith(s, "[") then
      var rows :- ReadRows(s);
      if rows.1 == [] then Some(Table(rows.0)) else None
    else
      var row :- ReadRow(s);
      if row.1 == [] then Some(Object(row.0)) else None
  }

  // ----- the reader undoes serialise --------------------------------------

  /** The four digits of a code unit read back as that code unit. */
  lemma Hex4RoundTrip(n: int)
    requires 0 <= n < 0x10000
    ensures IsHex4(Hex4(n)) && HexValue(Hex4(n)) == n
  {
    var d3, d2, d1, d0 := n / 0x1000, n / 0x100 % 0x10, n / 0x10 % 0x10, n % 0x10;
    HexRecompose(n);
    assert HexValue(Hex4(n)) == d3 * 0x1000 + d2 * 0x100 + d1 * 0x10 + d0;
  }

  /** A code unit is the sum of its four hexadecimal digits. */
  lemma HexRecompose(n: int)
    requires 0 <= n < 0x10000
    ensures n == n / 0x1000 * 0x1000 + n / 0x100 % 0x10 * 0x100 + n / 0x10 % 0x10 * 0x10 + n % 0x10
  {
    var q1 := n / 0x10;
    var q2 := q1 / 0x10;
    assert n == q1 * 0x10 + n % 0x10;
    assert q1 == q2 * 0x10 + q1 % 0x10;
    assert q2 == n / 0x100;
    assert q2 / 0x10 == n / 0x1000;
    assert q2 == q2 / 0x10 * 0x10 + q2 % 0x10;
  }

  /** A `\uXXXX` escape followed by anything: its code unit, read from the
      digits after the `u`. */
  lemma UnicodeEscapeRead(n: int, t: string)
    requires 0 <= n < 0x10000
    ensures var s := UnicodeEscape(n) + t;
      |s| >= 6 && s[0] == '\\' && s[1] == 'u' && s[2..6] == Hex4(n) && s[6..] == t
      && IsHex4(s[2..6]) && HexValue(s[2..6]) == n
  {
    Hex4RoundTrip(n);
    var s := UnicodeEscape(n) + t;
    assert s[2..6] == Hex4(n);
  }

  /** The escape of a character beyond the Basic Multilingual Plane reads
      back as that character. */
  lemma SurrogatePairRead(c: char, t: string)
    requires c as int >= 0x10000
    ensures ReadUnit(UnicodeEscape(HighSurrogate(c as int)) + UnicodeEscape(LowSurrogate(c as int)) + t)
      == Some((c, 12))
  {
    var n := c as int;
    SurrogateSplit(n);
    SurrogateUnits(n, HighSurrogate(n), LowSurrogate(n), t);
  }

  lemma EscapeWide(c: char)
    requires c as int >= 0x10000
    ensures EscapeChar(c) == UnicodeEscape(HighSurrogate(c as int)) + UnicodeEscape(LowSurrogate(c as int))
  {
  }

  lemma Append3(a: string, b: string, c: string)
    ensures a + b + c == a + (b + c)
  {
  }

  /** The two code units of a character beyond the Basic Multilingual Plane
      recombine to it. */
  lemma SurrogateSplit(n: int)
    requires 0x10000 <= n < 0x110000
    ensures 0x10000 + (HighSurrogate(n) - 0xD800) * 0x400 + (LowSurrogate(n) - 0xDC00) == n
  {
  }

  /** Two escapes of a high and a low surrogate, read as one unit. */
  lemma SurrogateUnits(n: int, high: int, low: int, t: string)
    requires 0xD800 <= high < 0xDC00 && 0xDC00 <= low < 0xE000
    requires 0 <= n < 0x110000 && n == 0x10000 + (high - 0xD800) * 0x400 + (low - 0xDC00)
    ensures ReadUnit(UnicodeEscape(high) + UnicodeEscape(low) + t) == Some((n as char, 12))
  {
    var s := UnicodeEscape(high) + UnicodeEscape(low) + t;
    Append3(UnicodeEscape(high), UnicodeEscape(low), t);
    UnicodeEscapeRead(high, UnicodeEscape(low) + t);
    UnicodeEscapeRead(low, t);
    assert s[6..] == UnicodeEscape(low) + t;
    assert s[8..12] == (UnicodeEscape(low) + t)[2..6];
  }

  /** Any other character that needs a `\uXXXX` escape reads back from it. */
  lemma SingleEscapeRead(c: char, t: string)
    requires c as int < 0x10000
    ensures ReadUnit(UnicodeEscape(c as int) + t) == Some((c, 6))
  {
    UnicodeEscapeRead(c as int, t);
  }

  /** The escape of any character reads back as that character, whatever
      follows it. */
  lemma EscapeCharRead(c: char, t: string)
    ensures ReadUnit(EscapeChar(c) + t) == Some((c, |EscapeChar(c)|))
    ensures (EscapeChar(c) + t)[|EscapeChar(c)|..] == t
  {
    if IsPlain(c) || c == '\\' || c == '"' || c == '\U{08}' || c == '\U{0C}' || c == '\n' || c == '\r' || c == '\t' {
    } else if c as int >= 0x10000 {
      EscapeWide(c);
      SurrogatePairRead(c, t);
    } else {
      SingleEscapeRead(c, t);
    }
  }

  /** The escaped characters, the closing quote and anything after it read
      back as the characters and what follows the quote. */
  lemma {:induction false} EscapeAllRead(v: string, rest: string)
    ensures ReadChars(EscapeAll(v) + "\"" + rest) == Some((v, rest))
  {
    var s := EscapeAll(v) + "\"" + rest;
    if v == [] {
      assert s == "\"" + rest;
      assert s[1..] == rest;
    } else {
      var e := EscapeChar(v[0]);
      var t := EscapeAll(v[1..]) + "\"" + rest;
      assert s == e + t;
      EscapeCharRead(v[0], t);
      assert s[0] == e[0];
      EscapeAllRead(v[1..], rest);
      assert [v[0]] + v[1..] == v;
    }
  }

  /** A string `json.dumps` wrote reads back as that string, whatever follows. */
  lemma EncodeStringRead(v: string, rest: string)
    ensures ReadString(EncodeString(v) + rest) == Some((v, rest))
  {
    var s := EncodeString(v) + rest;
    assert s[1..] == EscapeAll(v) + "\"" + rest;
    EscapeAllRead(v, rest);
  }

  lemma EncodePairRead(f: Field, rest: string)
    ensures ReadPair(EncodePair(f) + rest) == Some((f, rest))
  {
    var k, v := EncodeString(f.key), EncodeString(f.value);
    var after := ": " + (v + rest);
    Regroup(k, ": ", v, rest);
    EncodeStringRead(f.key, after);
    assert StartsWith(after, ": ") by {
      assert after[..2] == ": ";
    }
    assert after[2..] == v + rest;
    EncodeStringRead(f.value, rest);
  }

  lemma Regroup(a: string, b: string, c: string, d: string)
    ensures a + b + c + d == a + (b + (c + d))
  {
  }

  /** The text after one pair of a dict: the pairs `row` still to come,
      the closing brace, then `rest`. */
  function PairsTail(row: Row, rest: string): string
  {
    if row == [] then "}" + rest else ", " + EncodePairs(row) + "}" + rest
  }

  /** A non-empty dict's pairs: the first one, then the others. */
  lemma PairsOfRow(row: Row)
    requires row != []
    ensures EncodePairs(row) + "}" == EncodePair(row[0]) + PairsTail(row[1..], "")
  {
    if |row| == 1 {
      assert EncodePairs(row) == EncodePair(row[0]);
      assert PairsTail(row[1..], "") == "}" + "";
    } else {
      var first, others := EncodePair(row[0]), EncodePairs(row[1..]);
      assert EncodePairs(row) == first + ", " + others;
      assert PairsTail(row[1..], "") == ", " + others + "}" + "";
      Regroup(first, ", ", others, "}");
    }
  }

  /** Text built by appending `rest` to a tail with nothing after it. */
  lemma PairsTailRest(row: Row, rest: string)
    ensures PairsTail(row, rest) == PairsTail(row, "") + rest
  {
  }

  /** A dict's text is the first pair followed by the text after it. */
  lemma PairsSplit(row: Row, rest: string)
    requires row != []
    ensures PairsTail(row, rest) == ", " + (EncodePair(row[0]) + PairsTail(row[1..], rest))
    ensures EncodeRow(row) + rest == "{" + (EncodePair(row[0]) + PairsTail(row[1..], rest))
  {
    var first, body, tail := EncodePair(row[0]), EncodePairs(row), PairsTail(row[1..], "");
    PairsOfRow(row);
    PairsTailRest(row[1..], rest);
    assert PairsTail(row, rest) == ", " + body + "}" + rest;
    Reassociate(", ", body, "}", first, tail, rest);
    Reassociate("{", body, "}", first, tail, rest);
  }

  lemma Reassociate(opening: string, body: string, close: string, first: string, tail: string, rest: string)
    requires body + close == first + tail
    ensures opening + body + close + rest == opening + (first + (tail + rest))
  {
    calc {
      opening + body + close + rest;
      opening + (body + close) + rest;
      opening + (first + tail) + rest;
      opening + (first + (tail + rest));
    }
  }

  /** The text after a pair reads back as the remaining pairs and `rest`. */
  lemma {:induction false} MorePairsRead(row: Row, rest: string)
    ensures ReadMorePairs(PairsTail(row, rest)) == Some((row, rest))
  {
    if row == [] {
      LeadsWith("}", rest);
    } else {
      var after := PairsTail(row[1..], rest);
      PairsSplit(row, rest);
      EncodePairRead(row[0], after);
      MorePairsRead(row[1..], rest);
      MorePairsStep(EncodePair(row[0]) + after, row[0], after, row[1..], rest);
      assert [row[0]] + row[1..] == row;
    }
  }

  /** `o + body` starts with `o`, and `body` follows it. */
  lemma LeadsWith(o: string, body: string)
    ensures StartsWith(o + body, o) && (o + body)[|o|..] == body
  {
    assert (o + body)[..|o|] == o;
  }

  /** ReadMorePairs on a comma, then a pair, then more pairs. */
  lemma MorePairsStep(body: string, f: Field, after: string, more: Row, rest: string)
    requires ReadPair(body) == Some((f, after))
    requires ReadMorePairs(after) == Some((more, rest))
    ensures ReadMorePairs(", " + body) == Some(([f] + more, rest))
  {
    LeadsWith(", ", body);
    assert (", " + body)[0] == ',';
  }
  /** A dict `json.dumps` wrote reads back as that dict, whatever follows. */
  lemma EncodeRowRead(row: Row, rest: string)
    ensures ReadRow(EncodeRow(row) + rest) == Some((row, rest))
  {
    if row == [] {
      assert EncodeRow(row) + rest == "{}" + rest;
      LeadsWith("{}", rest);
    } else {
      var after := PairsTail(row[1..], rest);
      PairsSplit(row, rest);
      EncodePairRead(row[0], after);
      MorePairsRead(row[1..], rest);
      RowStep(EncodePair(row[0]) + after, row[0], after, row[1..], rest);
      assert [row[0]] + row[1..] == row;
    }
  }

  /** ReadRow on an opening brace, then a pair, then more pairs. */
  lemma RowStep(body: string, f: Field, after: string, more: Row, rest: string)
    requires ReadPair(body) == Some((f, after))
    requires ReadMorePairs(after) == Some((more, rest))
    ensures ReadRow("{" + body) == Some(([f] + more, rest))
  {
    LeadsWith("{", body);
    assert body[0] == '"';
    assert ("{" + body)[1] == '"';
  }
  /** The text after one dict of a list: the dicts `rows` still to come,
      the closing bracket, then `rest`. */
  function RowsTail(rows: seq<Row>, rest: string): string
  {
    if rows == [] then "]" + rest else ", " + EncodeRows(rows) + "]" + rest
  }

  lemma RowsOfTable(rows: seq<Row>)
    requires rows != []
    ensures EncodeRows(rows) + "]" == EncodeRow(rows[0]) + RowsTail(rows[1..], "")
  {
    if |rows| > 1 {
      var first, others := EncodeRow(rows[0]), EncodeRows(rows[1..]);
      assert EncodeRows(rows) == first + ", " + others;
      assert RowsTail(rows[1..], "") == ", " + others + "]" + "";
    }
  }

  lemma RowsTailRest(rows: seq<Row>, rest: string)
    ensures RowsTail(rows, rest) == RowsTail(rows, "") + rest
  {
  }

  /** A list's text is the first dict followed by the text after it. */
  lemma RowsSplit(rows: seq<Row>, rest: string)
    requires rows != []
    ensures RowsTail(rows, rest) == ", " + (EncodeRow(rows[0]) + RowsTail(rows[1..], rest))
    ensures "[" + EncodeRows(rows) + "]" + rest == "[" + (EncodeRow(rows[0]) + RowsTail(rows[1..], rest))
  {
    var first, body, tail := EncodeRow(rows[0]), EncodeRows(rows), RowsTail(rows[1..], "");
    RowsOfTable(rows);
    RowsTailRest(rows[1..], rest);
    assert RowsTail(rows, rest) == ", " + body + "]" + rest;
    Reassociate(", ", body, "]", first, tail, rest);
    Reassociate("[", body, "]", first, tail, rest);
  }

  /** The text after a dict of a list reads back as the remaining dicts and `rest`. */
  lemma {:induction false} MoreRowsRead(rows: seq<Row>, rest: string)
    ensures ReadMoreRows(RowsTail(rows, rest)) == Some((rows, rest))
  {
    if rows == [] {
      LeadsWith("]", rest);
    } else {
      var after := RowsTail(rows[1..], rest);
      RowsSplit(rows, rest);
      EncodeRowRead(rows[0], after);
      MoreRowsRead(rows[1..], rest);
      MoreRowsStep(EncodeRow(rows[0]) + after, rows[0], after, rows[1..], rest);
      assert [rows[0]] + rows[1..] == rows;
    }
  }

  /** ReadMoreRows on a comma, then a dict, then more dicts. */
  lemma MoreRowsStep(body: string, row: Row, after: string, more: seq<Row>, rest: string)
    requires ReadRow(body) == Some((row, after))
    requires ReadMoreRows(after) == Some((more, rest))
    ensures ReadMoreRows(", " + body) == Some(([row] + more, rest))
  {
    LeadsWith(", ", body);
    assert (", " + body)[0] == ',';
  }
  /** A list `json.dumps` wrote reads back as that list, whatever follows. */
  lemma EncodeTableRead(rows: seq<Row>, rest: string)
    ensures ReadRows("[" + EncodeRows(rows) + "]" + rest) == Some((rows, rest))
  {
    if rows == [] {
      assert "[" + EncodeRows(rows) + "]" + rest == "[]" + rest;
      LeadsWith("[]", rest);
    } else {
      var after := RowsTail(rows[1..], rest);
      RowsSplit(rows, rest);
      EncodeRowRead(rows[0], after);
      MoreRowsRead(rows[1..], rest);
      TableStep(EncodeRow(rows[0]) + after, rows[0], after, rows[1..], rest);
      assert [rows[0]] + rows[1..] == rows;
    }
  }

  /** ReadRows on an opening bracket, then a dict, then more dicts. */
  lemma TableStep(body: string, row: Row, after: string, more: seq<Row>, rest: string)
    requires ReadRow(body) == Some((row, after))
    requires ReadMoreRows(after) == Some((more, rest))
    ensures ReadRows("[" + body) == Some(([row] + more, rest))
  {
    LeadsWith("[", body);
    assert body[0] == '{';
    assert ("[" + body)[1] == '{';
  }
  /** Serialise loses nothing: reading its text gives back the same records,
      keys and rows in the same order, so different records never share a
      text. */
  lemma SerialiseRead(d: Data)
    ensures Read(Serialise(d)) == Some(d)
  {
    var s := Serialise(d);
    match d
    case Table(rows) =>
      EncodeTableRead(rows, "");
      assert s + "" == s;
      assert StartsWith(s, "[") by { assert s[..1] == "["; }
    case Object(row) =>
      EncodeRowRead(row, "");
      assert s + "" == s;
      assert !StartsWith(s, "[") by { assert s[0] == '{'; }
  }

  /** Different records are serialised to different texts. */
  lemma SerialiseInjective(d: Data, e: Data)
    requires Serialise(d) == Serialise(e)
    ensures d == e
  {
    SerialiseRead(d);
    SerialiseRead(e);
  }
}
