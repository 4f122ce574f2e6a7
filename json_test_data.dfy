/**
 * The JSON text the repository's unit tests expect for their two records:
 * `json.dumps` writes each dict with ", " between pairs and ": " inside
 * them, and leaves the plain ASCII of the test values as it is.
 */
module JsonTestData {
  import opened Records
  import opened JsonConverter
  import opened CsvTestData

  /** One `"key": "value"` pair of the expected text. */
  function Member(key: string, value: string): string {
    "\"" + key + "\": \"" + value + "\""
  }

  /** The expected JSON text of one test record. */
  function PersonJson(name: string, age: string, phone: string, address: string): string {
    "{" + Member("name", name) + ", " + Member("age", age) + ", " + Member("phone", phone)
    + ", " + Member("address", address) + "}"
  }

  /** The expected JSON text, `JSON_STRING_DATA`. */
  function PeopleJson(): string {
    "[" + PersonJson("Joe Bloggs", "21", "0412345678", Address) + ", "
    + PersonJson("Jim Bloggs", "42", "0423456789", Address) + "]"
  }

  /** `JsonConverter.serialise(TEST_DATA) == JSON_STRING_DATA`. */
  lemma SerialiseTestData()
    ensures JsonConverter.Serialise(Table(People())) == PeopleJson()
  {
    JoeAsciiPlain();
    JimAsciiPlain();
    AddressPlain();
    PersonEncoded("Joe Bloggs", "21", "0412345678", Address);
    PersonEncoded("Jim Bloggs", "42", "0423456789", Address);
    TwoRows(Person("Joe Bloggs", "21", "0412345678", Address), Person("Jim Bloggs", "42", "0423456789", Address));
  }

  /** The expected text, spelt out piece by piece as `JSON_STRING_DATA`
      reads: each record's four pairs, in header order. */
  lemma PeopleJsonIsLiteral()
    ensures PeopleJson() ==
      "[" + ("{" + "\"name\": \"Joe Bloggs\"" + ", " + "\"age\": \"21\"" + ", " + "\"phone\": \"0412345678\""
             + ", " + "\"address\": \"1 Somewhere Street, Sydney\"" + "}")
      + ", "
      + ("{" + "\"name\": \"Jim Bloggs\"" + ", " + "\"age\": \"42\"" + ", " + "\"phone\": \"0423456789\""
         + ", " + "\"address\": \"1 Somewhere Street, Sydney\"" + "}") + "]"
  {
    JoeNameMember();
    JimNameMember();
    JoeAgeMember();
    JimAgeMember();
    JoePhoneMember();
    JimPhoneMember();
    AddressMember();
  }

  // ----- helpers ----------------------------------------------------------

  predicate AllPlain(s: string) {
    forall i :: 0 <= i < |s| ==> IsPlain(s[i])
  }

  /** Plain characters are written as they are. */
  lemma {:induction false} EscapeAllPlain(s: string)
    requires AllPlain(s)
    ensures EscapeAll(s) == s
  {
    if s != [] {
      EscapeAllPlain(s[1..]);
      assert [s[0]] + s[1..] == s;
    }
  }

  lemma PlainPair(k: string, v: string)
    requires AllPlain(k) && AllPlain(v)
    ensures EncodePair(Field(k, v)) == Member(k, v)
  {
    EscapeAllPlain(k);
    EscapeAllPlain(v);
  }

  lemma FourPairs(f0: Field, f1: Field, f2: Field, f3: Field)
    ensures EncodePairs([f0, f1, f2, f3]) ==
      EncodePair(f0) + ", " + (EncodePair(f1) + ", " + (EncodePair(f2) + ", " + EncodePair(f3)))
  {
    var row := [f0, f1, f2, f3];
    assert row[1..] == [f1, f2, f3];
    assert row[1..][1..] == [f2, f3];
    assert row[1..][1..][1..] == [f3];
    assert EncodePairs([f2, f3]) == EncodePair(f2) + ", " + EncodePair(f3);
    assert EncodePairs([f1, f2, f3]) == EncodePair(f1) + ", " + EncodePairs([f2, f3]);
  }

  /** Seven pieces inside brackets, grouped pair by pair from the right,
      are the same text grouped from the left. */
  lemma Flatten(o: string, a: string, b: string, c: string, d: string, e: string, f: string, g: string, z: string)
    ensures o + (a + b + (c + d + (e + f + g))) + z == o + a + b + c + d + e + f + g + z
  {
    calc {
      o + (a + b + (c + d + (e + f + g))) + z;
      o + (a + b + (c + d + e + f + g)) + z;
      o + (a + b + c + d + e + f + g) + z;
    }
  }

  lemma PersonEncoded(name: string, age: string, phone: string, address: string)
    requires AllPlain(name) && AllPlain(age) && AllPlain(phone) && AllPlain(address)
    ensures EncodeRow(Person(name, age, phone, address)) == PersonJson(name, age, phone, address)
  {
    assert AllPlain("name") && AllPlain("age") && AllPlain("phone") && AllPlain("address");
    PlainPair("name", name);
    PlainPair("age", age);
    PlainPair("phone", phone);
    PlainPair("address", address);
    FourPairs(Field("name", name), Field("age", age), Field("phone", phone), Field("address", address));
    Flatten("{", Member("name", name), ", ", Member("age", age), ", ", Member("phone", phone), ", ", Member("address", address), "}");
  }

  lemma TwoRows(first: Row, second: Row)
    ensures JsonConverter.Serialise(Table([first, second])) == "[" + EncodeRow(first) + ", " + EncodeRow(second) + "]"
  {
    assert [first, second][1..] == [second];
    assert EncodeRows([first, second]) == EncodeRow(first) + ", " + EncodeRow(second);
    Bracketed("[", EncodeRow(first), ", ", EncodeRow(second), "]");
  }

  lemma Bracketed(o: string, a: string, s: string, b: string, z: string)
    ensures o + (a + s + b) + z == o + a + s + b + z
  {
  }

  lemma JoeAsciiPlain()
    ensures AllPlain("Joe Bloggs") && AllPlain("21") && AllPlain("0412345678")
  {
  }

  lemma JimAsciiPlain()
    ensures AllPlain("Jim Bloggs") && AllPlain("42") && AllPlain("0423456789")
  {
  }

  lemma AddressPlain()
    ensures AllPlain(Address)
  {
  }

  lemma JoeNameMember()
    ensures Member("name", "Joe Bloggs") == "\"name\": \"Joe Bloggs\""
  {
  }

  lemma JimNameMember()
    ensures Member("name", "Jim Bloggs") == "\"name\": \"Jim Bloggs\""
  {
  }

  lemma JoeAgeMember()
    ensures Member("age", "21") == "\"age\": \"21\""
  {
  }

  lemma JimAgeMember()
    ensures Member("age", "42") == "\"age\": \"42\""
  {
  }

  lemma JoePhoneMember()
    ensures Member("phone", "0412345678") == "\"phone\": \"0412345678\""
  {
  }

  lemma JimPhoneMember()
    ensures Member("phone", "0423456789") == "\"phone\": \"0423456789\""
  {
  }

  lemma AddressMember()
    ensures Member("address", Address) == "\"address\": \"1 Somewhere Street, Sydney\""
  {
    MemberSplit("address", Address);
    AddressClosed();
    AddressJoin();
  }

  lemma MemberSplit(key: string, value: string)
    ensures Member(key, value) == ("\"" + key + "\": \"") + (value + "\"")
  {
  }

  lemma AddressClosed()
    ensures "\"" + "address" + "\": \"" == "\"address\": \""
    ensures Address + "\"" == "1 Somewhere Street, Sydney\""
  {
  }

  lemma AddressJoin()
    ensures "\"address\": \"" + "1 Somewhere Street, Sydney\"" == "\"address\": \"1 Somewhere Street, Sydney\""
  {
  }
}
