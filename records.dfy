/**
 * The record model shared by the converters: a Python dict with string keys
 * and string values, kept in insertion order, and the value a converter
 * produces or consumes (a list of such dicts, or one dict on its own).
 */
module Records {

  datatype Field = Field(key: string, value: string)

  /** A dict: its fields in insertion order. */
  type Row = seq<Field>

  /** What a deserialiser returns: a list of dicts, or a single dict
      (`BaseConverter.deserialise` returns `{}`, and `json.loads` may too). */
  datatype Data = Table(rows: seq<Row>) | Object(row: Row)

  function Keys(row: Row): (ks: seq<string>)
    ensures |ks| == |row|
    ensures forall i :: 0 <= i < |row| ==> ks[i] == row[i].key
  {
    if row == [] then [] else [row[0].key] + Keys(row[1..])
  }

  function Values(row: Row): (vs: seq<string>)
    ensures |vs| == |row|
    ensures forall i :: 0 <= i < |row| ==> vs[i] == row[i].value
  {
    if row == [] then [] else [row[0].value] + Values(row[1..])
  }

  /** Python's dict invariant: no key occurs twice. */
  predicate DistinctKeys(row: Row) {
    forall i, j :: 0 <= i < j < |row| ==> row[i].key != row[j].key
  }

  predicate Distinct(ks: seq<string>) {
    forall i, j :: 0 <= i < j < |ks| ==> ks[i] != ks[j]
  }

  /** `row.get(key, default)` */
  function Get(row: Row, key: string, default: string): (v: string)
    ensures key !in Keys(row) ==> v == default
    ensures forall i :: 0 <= i < |row| && row[i].key == key && key !in Keys(row[..i]) ==> v == row[i].value
  {
    if row == [] then default
    else if row[0].key == key then row[0].value
    else
      assert forall i :: 0 < i < |row| ==> Keys(row[..i]) == [row[0].key] + Keys(row[1..][..i - 1]);
      Get(row[1..], key, default)
  }

  /** `row[key] = value`: an existing key keeps its place, a new one goes last. */
  function Put(row: Row, key: string, value: string): (r: Row)
    ensures key in Keys(row) ==> Keys(r) == Keys(row)
    ensures key !in Keys(row) ==> r == row + [Field(key, value)]
  {
    if row == [] then [Field(key, value)]
    else if row[0].key == key then [Field(key, value)] + row[1..]
    else
      assert Keys(row) == [row[0].key] + Keys(row[1..]);
      [row[0]] + Put(row[1..], key, value)
  }

  /** `list(zip(keys, values))` as fields */
  function Zip(keys: seq<string>, values: seq<string>): (ps: seq<Field>)
    ensures |ps| == if |keys| <= |values| then |keys| else |values|
    ensures forall i :: 0 <= i < |ps| ==> ps[i] == Field(keys[i], values[i])
  {
    if keys == [] || values == [] then [] else [Field(keys[0], values[0])] + Zip(keys[1..], values[1..])
  }

  /** `d[key] = value`, as `get` sees it: the key now holds `value`, and
      every other key keeps what it held. */
  lemma {:induction false} PutGet(row: Row, key: string, value: string)
    ensures forall d :: Get(Put(row, key, value), key, d) == value
    ensures forall k, d :: k != key ==> Get(Put(row, key, value), k, d) == Get(row, k, d)
  {
    if row != [] && row[0].key != key {
      PutGet(row[1..], key, value);
      var r := Put(row, key, value);
      assert r == [row[0]] + Put(row[1..], key, value);
      assert r[1..] == Put(row[1..], key, value);
    }
  }

  /** What `get` finds under a key the dict holds is the value of one of its
      fields with that key. */
  lemma {:induction false} GetIsStored(row: Row, key: string, default: string)
    requires key in Keys(row)
    ensures exists j :: 0 <= j < |row| && row[j] == Field(key, Get(row, key, default))
  {
    if row[0].key != key {
      assert Keys(row) == [row[0].key] + Keys(row[1..]);
      GetIsStored(row[1..], key, default);
      var j :| 0 <= j < |row[1..]| && row[1..][j] == Field(key, Get(row[1..], key, default));
      assert row[j + 1] == row[1..][j];
    } else {
      assert row[0] == Field(key, Get(row, key, default));
    }
  }

  /** `dict(pairs)`: the pairs stored one after the other with `Put`. */
  function DictOf(pairs: seq<Field>): Row
  {
    if pairs == [] then []
    else
      var last := pairs[|pairs| - 1];
      Put(DictOf(pairs[..|pairs| - 1]), last.key, last.value)
  }

  lemma {:induction false} PutKeepsDistinct(row: Row, key: string, value: string)
    requires DistinctKeys(row)
    ensures DistinctKeys(Put(row, key, value))
  {
    if key !in Keys(row) {
      assert forall i :: 0 <= i < |row| ==> row[i].key == Keys(row)[i];
    } else {
      var r := Put(row, key, value);
      assert Keys(r) == Keys(row);
      forall i, j | 0 <= i < j < |r| ensures r[i].key != r[j].key {
        assert r[i].key == Keys(r)[i] && r[j].key == Keys(r)[j];
        assert Keys(row)[i] == row[i].key && Keys(row)[j] == row[j].key;
      }
    }
  }

  /** Whatever the pairs, `dict(pairs)` has no repeated key. */
  lemma {:induction false} DictOfIsDict(pairs: seq<Field>)
    ensures DistinctKeys(DictOf(pairs))
  {
    if pairs != [] {
      var last := pairs[|pairs| - 1];
      DictOfIsDict(pairs[..|pairs| - 1]);
      PutKeepsDistinct(DictOf(pairs[..|pairs| - 1]), last.key, last.value);
    }
  }

  /** Pairs whose keys are already distinct come out of `dict` unchanged, in order. */
  lemma {:induction false} DictOfDistinct(pairs: seq<Field>)
    requires DistinctKeys(pairs)
    ensures DictOf(pairs) == pairs
  {
    if pairs != [] {
      var n := |pairs| - 1;
      var init := pairs[..n];
      LastKeyFresh(pairs);
      DictOfDistinct(init);
      assert init + [pairs[n]] == pairs;
    }
  }

  /** The last key of a dict is not among the earlier ones, which are a
      dict themselves. */
  lemma LastKeyFresh(pairs: seq<Field>)
    requires DistinctKeys(pairs) && pairs != []
    ensures DistinctKeys(pairs[..|pairs| - 1])
    ensures pairs[|pairs| - 1].key !in Keys(pairs[..|pairs| - 1])
  {
    var n := |pairs| - 1;
    var init := pairs[..n];
    forall i | 0 <= i < n ensures Keys(init)[i] != pairs[n].key {
      assert Keys(init)[i] == pairs[i].key;
    }
  }

  /** Zipping a dict's own keys and values rebuilds the dict. */
  lemma ZipKeysValues(row: Row)
    ensures Zip(Keys(row), Values(row)) == row
  {
  }
}
