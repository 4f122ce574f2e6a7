/**
 * The records of the repository's unit tests (two people sharing an address
 * with a comma in it) and the CSV text they expect: serialise produces it,
 * and deserialise turns it back into the records.
 */
module CsvTestData {
  import opened Errors
  import opened Records
  import opened CsvWriter
  import opened CsvReader
  import opened CsvConverter

  const Header: seq<string> := ["name", "age", "phone", "address"]
  const Address: string := "1 Somewhere Street, Sydney"

  /** One test record: a dict with the four keys in header order. */
  function Person(name: string, age: string, phone: string, address: string): Row {
    [Field("name", name), Field("age", age), Field("phone", phone), Field("address", address)]
  }

  /** The test records, `TEST_DATA`. */
  function People(): seq<Row> {
    [Person("Joe Bloggs", "21", "0412345678", Address), Person("Jim Bloggs", "42", "0423456789", Address)]
  }

  /** The expected header line. */
  function HeaderText(): string {
    "name" + "," + "age" + "," + "phone" + "," + "address" + "\r\n"
  }

  /** The expected line of one test record whose address needs quotes. */
  function PersonLine(name: string, age: string, phone: string, address: string): string {
    name + "," + age + "," + phone + ",\"" + address + "\"\r\n"
  }

  /** The expected CSV text, `CSV_STRING_DATA`. */
  function PeopleText(): string {
    HeaderText()
    + PersonLine("Joe Bloggs", "21", "0412345678", Address)
    + PersonLine("Jim Bloggs", "42", "0423456789", Address)
  }

  /** `CsvConverter.serialise(TEST_DATA) == CSV_STRING_DATA`: the address
      alone is quoted, because of its comma. */
  lemma SerialiseTestData()
    ensures SerialiseSpec(Table(People())) == Ok(PeopleText())
  {
    var joe := Person("Joe Bloggs", "21", "0412345678", Address);
    var jim := Person("Jim Bloggs", "42", "0423456789", Address);
    assert Keys(joe) == Header;
    PersonValues("Joe Bloggs", "21", "0412345678", Address);
    PersonValues("Jim Bloggs", "42", "0423456789", Address);
    SerialiseTwo(joe, jim);
    HeaderLine();
    JoePlain();
    JimPlain();
    AddressQuoted();
    QuotedAddressLine("Joe Bloggs", "21", "0412345678", Address);
    QuotedAddressLine("Jim Bloggs", "42", "0423456789", Address);
  }

  /** `CsvConverter.deserialise(CSV_STRING_DATA)` gives back `TEST_DATA`. */
  lemma DeserialiseTestData()
    ensures CsvConverter.Deserialise(PeopleText()) == Ok(Table(People()))
  {
    JoeCarried();
    JimCarried();
    AddressCarried();
    PeopleRepresentable("Joe Bloggs", "21", "0412345678", Address, "Jim Bloggs", "42", "0423456789", Address);
    CsvConverter.RoundTrip(People());
    SerialiseTestData();
  }

  /** The expected text, spelt out as the three lines of `CSV_STRING_DATA`. */
  lemma PeopleTextIsLiteral()
    ensures PeopleText() ==
      "name,age,phone,address\r\n"
      + "Joe Bloggs,21,0412345678,\"1 Somewhere Street, Sydney\"\r\n"
      + "Jim Bloggs,42,0423456789,\"1 Somewhere Street, Sydney\"\r\n"
  {
    HeaderTextIsLiteral();
    JoeLineIsLiteral();
    JimLineIsLiteral();
  }

  // ----- helpers ----------------------------------------------------------

  lemma FourFields(a: string, b: string, c: string, d: string)
    ensures JoinFields([a, b, c, d]) ==
      FormatField(a) + [Delimiter] + FormatField(b) + [Delimiter] + FormatField(c) + [Delimiter] + FormatField(d)
  {
    assert [a, b, c, d][1..] == [b, c, d];
    assert [b, c, d][1..] == [c, d];
    assert [c, d][1..] == [d];
    var fa, fb, fc, fd := FormatField(a), FormatField(b), FormatField(c), FormatField(d);
    assert JoinFields([c, d]) == fc + [Delimiter] + fd;
    assert JoinFields([b, c, d]) == fb + [Delimiter] + (fc + [Delimiter] + fd);
    assert JoinFields([a, b, c, d]) == fa + [Delimiter] + (fb + [Delimiter] + (fc + [Delimiter] + fd));
  }

  lemma PlainLine(name: string, age: string, phone: string, address: string)
    requires !NeedsQuotes(name) && !NeedsQuotes(age) && !NeedsQuotes(phone) && !NeedsQuotes(address)
    ensures WriteRow([name, age, phone, address]) == name + "," + age + "," + phone + "," + address + "\r\n"
  {
    FourFields(name, age, phone, address);
  }

  lemma QuotedAddressLine(name: string, age: string, phone: string, address: string)
    requires !NeedsQuotes(name) && !NeedsQuotes(age) && !NeedsQuotes(phone)
    requires NeedsQuotes(address) && QuoteChar !in address
    ensures WriteRow([name, age, phone, address]) == PersonLine(name, age, phone, address)
  {
    FourFields(name, age, phone, address);
    DoubledNoQuote(address);
    assert FormatField(address) == [QuoteChar] + address + [QuoteChar];
    QuotedLast(name, age, phone, address);
  }

  lemma QuotedLast(a: string, b: string, c: string, d: string)
    ensures a + [Delimiter] + b + [Delimiter] + c + [Delimiter] + ([QuoteChar] + d + [QuoteChar]) + LineTerminator
         == a + "," + b + "," + c + ",\"" + d + "\"\r\n"
  {
    var q := [QuoteChar] + d + [QuoteChar];
    assert a + [Delimiter] + b + [Delimiter] + c + [Delimiter] + q + LineTerminator
        == a + [Delimiter] + b + [Delimiter] + c + ([Delimiter] + q + LineTerminator);
    assert [Delimiter] + q + LineTerminator == ",\"" + d + "\"\r\n";
  }

  lemma AddressQuoted()
    ensures NeedsQuotes(Address) && QuoteChar !in Address
  {
    assert IsSpecial(Address[18]);
  }

  lemma HeaderLine()
    ensures WriteRow(Header) == HeaderText()
  {
    assert !NeedsQuotes("name") && !NeedsQuotes("age") && !NeedsQuotes("phone") && !NeedsQuotes("address");
    PlainLine("name", "age", "phone", "address");
  }

  lemma JoePlain()
    ensures !NeedsQuotes("Joe Bloggs") && !NeedsQuotes("21") && !NeedsQuotes("0412345678")
  {
    assert !NeedsQuotes("Joe Bloggs");
    assert !NeedsQuotes("0412345678");
  }

  lemma JimPlain()
    ensures !NeedsQuotes("Jim Bloggs") && !NeedsQuotes("42") && !NeedsQuotes("0423456789")
  {
    assert !NeedsQuotes("Jim Bloggs");
    assert !NeedsQuotes("0423456789");
  }

  lemma PersonValues(name: string, age: string, phone: string, address: string)
    ensures RowValues(Header, Person(name, age, phone, address)) == Ok([name, age, phone, address])
  {
    assert Distinct(Header);
    var row := Person(name, age, phone, address);
    assert Keys(row) == Header;
    RowValuesOfKeyed(Header, row);
    assert Values(row) == [name, age, phone, address];
  }

  lemma TwoRowValues(fieldnames: seq<string>, first: Row, second: Row)
    requires RowValues(fieldnames, first).Ok? && RowValues(fieldnames, second).Ok?
    ensures AllRowValues(fieldnames, [first, second]) ==
      Ok([RowValues(fieldnames, first).value, RowValues(fieldnames, second).value])
  {
    var v0, v1 := RowValues(fieldnames, first).value, RowValues(fieldnames, second).value;
    assert AllRowValues(fieldnames, []) == Ok([]);
    AllRowValuesAppend(fieldnames, [], first);
    assert [] + [first] == [first];
    assert [] + [v0] == [v0];
    assert AllRowValues(fieldnames, [first]) == Ok([v0]);
    AllRowValuesAppend(fieldnames, [first], second);
    assert [first] + [second] == [first, second];
    assert [v0] + [v1] == [v0, v1];
  }

  lemma SerialiseTwo(first: Row, second: Row)
    requires RowValues(Keys(first), first).Ok? && RowValues(Keys(first), second).Ok?
    ensures SerialiseSpec(Table([first, second])) ==
      Ok(WriteRow(Keys(first)) + WriteRow(RowValues(Keys(first), first).value) + WriteRow(RowValues(Keys(first), second).value))
  {
    var fieldnames := Keys(first);
    var v0, v1 := RowValues(fieldnames, first).value, RowValues(fieldnames, second).value;
    TwoRowValues(fieldnames, first, second);
    TwoLines(v0, v1);
    var h, l0, l1 := WriteRow(fieldnames), WriteRow(v0), WriteRow(v1);
    assert SerialiseSpec(Table([first, second])) == WriteTable(fieldnames, [first, second]);
    assert h + (l0 + l1) == h + l0 + l1;
  }

  lemma TwoLines(v0: seq<string>, v1: seq<string>)
    ensures WriteRows([v0, v1]) == WriteRow(v0) + WriteRow(v1)
  {
    assert [v0, v1][1..] == [v1];
    assert [v1][1..] == [];
    assert WriteRows([v1]) == WriteRow(v1) + WriteRows([]);
    assert WriteRow(v1) + "" == WriteRow(v1);
    assert WriteRows([v0, v1]) == WriteRow(v0) + WriteRows([v1]);
  }

  predicate Carried(v: string) {
    NoLineBreaks(v) && |v| <= FieldLimit
  }

  lemma PeopleRepresentable(n0: string, a0: string, p0: string, d0: string, n1: string, a1: string, p1: string, d1: string)
    requires Carried(n0) && Carried(a0) && Carried(p0) && Carried(d0)
    requires Carried(n1) && Carried(a1) && Carried(p1) && Carried(d1)
    ensures Representable([Person(n0, a0, p0, d0), Person(n1, a1, p1, d1)])
  {
    var rows: seq<Row> := [Person(n0, a0, p0, d0), Person(n1, a1, p1, d1)];
    PersonKeys(n0, a0, p0, d0);
    PersonKeys(n1, a1, p1, d1);
    PersonCarried(n0, a0, p0, d0);
    PersonCarried(n1, a1, p1, d1);
    forall i, j | 0 <= i < |rows| && 0 <= j < |rows[i]|
      ensures Carried(rows[i][j].key) && Carried(rows[i][j].value)
    {
      if i == 0 {
        assert rows[i] == Person(n0, a0, p0, d0);
      } else {
        assert rows[i] == Person(n1, a1, p1, d1);
      }
    }
  }

  lemma PersonKeys(name: string, age: string, phone: string, address: string)
    ensures Keys(Person(name, age, phone, address)) == Header
    ensures DistinctKeys(Person(name, age, phone, address))
  {
    assert Distinct(Header);
  }

  lemma PersonCarried(name: string, age: string, phone: string, address: string)
    requires Carried(name) && Carried(age) && Carried(phone) && Carried(address)
    ensures forall j :: 0 <= j < 4 ==>
      Carried(Person(name, age, phone, address)[j].key) && Carried(Person(name, age, phone, address)[j].value)
  {
    HeaderCarried();
  }

  lemma HeaderCarried()
    ensures Carried("name") && Carried("age") && Carried("phone") && Carried("address")
  {
  }

  lemma JoeCarried()
    ensures Carried("Joe Bloggs") && Carried("21") && Carried("0412345678")
  {
    assert Carried("Joe Bloggs");
    assert Carried("0412345678");
  }

  lemma JimCarried()
    ensures Carried("Jim Bloggs") && Carried("42") && Carried("0423456789")
  {
    assert Carried("Jim Bloggs");
    assert Carried("0423456789");
  }

  lemma AddressCarried()
    ensures Carried(Address)
  {
  }

  lemma HeaderTextIsLiteral()
    ensures HeaderText() == "name,age,phone,address\r\n"
  {
  }

  lemma JoeLineIsLiteral()
    ensures PersonLine("Joe Bloggs", "21", "0412345678", Address)
      == "Joe Bloggs,21,0412345678,\"1 Somewhere Street, Sydney\"\r\n"
  {
    PersonLineSplit("Joe Bloggs", "21", "0412345678", Address);
    JoeHead();
    AddressTail();
    JoeJoin();
  }

  lemma JimLineIsLiteral()
    ensures PersonLine("Jim Bloggs", "42", "0423456789", Address)
      == "Jim Bloggs,42,0423456789,\"1 Somewhere Street, Sydney\"\r\n"
  {
    PersonLineSplit("Jim Bloggs", "42", "0423456789", Address);
    JimHead();
    AddressTail();
    JimJoin();
  }

  lemma PersonLineSplit(name: string, age: string, phone: string, address: string)
    ensures PersonLine(name, age, phone, address)
      == (name + "," + age + "," + phone + ",\"") + (address + "\"\r\n")
  {
  }

  lemma AddressTail()
    ensures Address + "\"\r\n" == "1 Somewhere Street, Sydney\"\r\n"
  {
  }

  lemma JoeHead()
    ensures "Joe Bloggs" + "," + "21" + "," + "0412345678" + ",\"" == "Joe Bloggs,21,0412345678,\""
  {
  }

  lemma JimHead()
    ensures "Jim Bloggs" + "," + "42" + "," + "0423456789" + ",\"" == "Jim Bloggs,42,0423456789,\""
  {
  }

  lemma JoeJoin()
    ensures "Joe Bloggs,21,0412345678,\"" + "1 Somewhere Street, Sydney\"\r\n"
      == "Joe Bloggs,21,0412345678,\"1 Somewhere Street, Sydney\"\r\n"
  {
  }

  lemma JimJoin()
    ensures "Jim Bloggs,42,0423456789,\"" + "1 Somewhere Street, Sydney\"\r\n"
      == "Jim Bloggs,42,0423456789,\"1 Somewhere Street, Sydney\"\r\n"
  {
  }
}
