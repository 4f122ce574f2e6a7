# converter: a verified model of `lib/convert.py`

`lib/convert.py` converts a data file from one format to another. It picks a
converter class for the input file and another for the output file from
their extensions: `.py` (a Python literal), `.csv` or `.json`. It reads the
input, deserialises it into a list of dicts, serialises that list with the
output converter, writes the result, and returns the data.

This project models that pipeline in Dafny and proves what it promises.

- **Records** (`records.dfy`). A dict with string keys and string values,
  in insertion order, is a `Row`. What a deserialiser returns is a `Data`: a
  `Table` of rows (a list of dicts) or a single `Object` (one dict, such as
  the `{}` of `BaseConverter`).
- **Errors** (`errors.dfy`). Every exception the code can raise on this path
  is a variant of `Error`. `Result` and `Option` carry them.
- **The registry** (`path_ext.dfy`, `convert_input.dfy`).
  - `os.path.splitext` is modelled with POSIX rules: the extension is the
    last dot of the last path component, and leading dots of that component
    do not count.
  - `ConvertInput` is a class whose field is the extension-to-converter
    table. `get_supported_extensions` is a loop over it, and `get_converter`
    looks up the extension case for case.
- **The converters** (`converters.dfy`). There is one variant per class:
  `Base`, `Py`, `Csv`, `Json` and `Yaml`.
- **CSV** (`csv_writer.dfy`, `csv_reader.dfy`, `csv_converter.dfy`).
  - The writer is `csv.DictWriter` with the "excel" dialect: a header line,
    then one line per row, with minimal quoting and `\r\n` line endings.
  - The buffer it writes into is a loop that appends one line at a time.
  - The reader is the state machine of `csv.reader`, run over
    `str.splitlines()`, with `csv.DictReader` on top.
- **JSON** (`json_converter.dfy`). `json.dumps` with its defaults:
  `ensure_ascii`, with `", "` and `": "` separators. A reader for exactly
  that output is defined next to it.
- **Files** (`file_store.dfy`). The files are a `FileStore` object: a map
  from path to text, plus the set of paths that cannot be written.
  `do_conversion` is a method that reads from the store and writes to it.
- **Test vectors** (`csv_test_data.dfy`, `json_test_data.dfy`). These hold
  the unit tests' records and the texts the tests expect.

The main results:

- **CSV.** Serialising a table and deserialising the text gives the table
  back. Serialising that text again gives the same characters, so a
  CSV-to-CSV conversion copies a canonical file (`\r\n` line endings, as the
  writer produces) exactly. `test_do_conversion` compares the two files after
  reading them with newline translation, so it accepts more than this.
- **JSON.** Its output is printable ASCII, and the reader recovers the data
  from it.
- **Pipeline.** Every failure the model knows of happens before the output
  file is opened, so such a failure changes no file. A successful conversion
  writes exactly the output file and returns the deserialised data.
- **Order of checks.** Both file names are resolved before anything is read.

## Model

| member | source | states |
|---|---|---|
| Records.Get | lib/convert.py:49-51 | `row.get(key, default)`: the default when the key is absent, otherwise the value stored under the key's first occurrence |
| Records.Put | lib/convert.py:43-44 | assigning to a dict keeps the key order when the key exists and appends the pair when it does not |
| Records.PutGet | lib/convert.py:43-44 | after `d[k] = v`, `k` holds `v` and every other key holds what it held |
| Records.Zip | lib/convert.py:43-44 | `zip(keys, values)` pairs the i-th key with the i-th value, as far as the shorter sequence goes |
| Records.PutKeepsDistinct | lib/convert.py:43-44 | assigning into a dict never duplicates a key |
| Records.DictOfIsDict | lib/convert.py:43-44 | `dict(pairs)` has distinct keys whatever the pairs |
| Records.DictOfDistinct | lib/convert.py:43-44 | `dict(pairs)` keeps pairs whose keys are already distinct exactly as given |
| Records.ZipKeysValues | lib/convert.py:43-44 | zipping a dict's keys with its values rebuilds the dict |
| PathExt.RFind | lib/convert.py:97 | `str.rfind`: the index of the last occurrence, or -1 when there is none |
| PathExt.SplitExt | lib/convert.py:97 | `os.path.splitext`: a non-empty extension starts with a dot, leaves a non-empty root and is shorter than the path; SplitExtRejoins and ExtensionCharacterised give the rest |
| PathExt.Extension | lib/convert.py:97 | the extension `get_converter` looks up: when non-empty it starts with a dot and is never the whole name, so a dotfile such as `.csv` has none |
| PathExt.SplitExtRejoins | lib/convert.py:97 | root and extension from `splitext` concatenate to the path |
| PathExt.ExtensionCharacterised | lib/convert.py:97 | the extension is non-empty exactly when the name has a last dot, with no dot or slash after it and a non-dot before it in the same component; the extension is then the suffix from that dot |
| PathExt.ExtensionFromDot | lib/convert.py:97 | a last dot with no slash after it and a non-dot before it in its component starts the extension |
| PathExt.DotOfExtension | lib/convert.py:97 | a non-empty extension starts at such a dot |
| PathExt.ExtensionShape | lib/convert.py:97 | an extension is empty or a dot followed by characters that are neither dots nor slashes |
| PathExt.ExtensionInDirectory | lib/convert.py:97 | for `dir/stem.ext` whose stem starts with a non-dot, the extension is `.ext`, whatever the directory holds |
| CsvWriter.Doubled | lib/convert.py:49-51 | doubling quotes never shortens a field |
| CsvWriter.DoubledChars | lib/convert.py:49-51 | doubling quotes adds no character besides the quote character |
| CsvWriter.DoubledNoQuote | lib/convert.py:49-51 | a field with no quote character is left unchanged |
| CsvWriter.FormatField | lib/convert.py:49-51 | one field as written: never shorter than the field; FormatFieldQuoting and ReadField state when it is quoted and that it reads back |
| CsvWriter.FormatRecord | lib/convert.py:49-51 | a non-empty record never writes an empty line, which is why a single empty field is written as `""` |
| CsvWriter.WriteRows | lib/convert.py:51 | the text of `writerows`: at least the two characters of `\r\n` per record; WriteRowsAppend and SplitWrittenRows give the lines |
| CsvWriter.FormatFieldQuoting | lib/convert.py:49-51 | a field is quoted exactly when it contains a comma, a quote, CR or LF; otherwise it is written as it is; a quoted field also ends with a quote |
| CsvWriter.WriteRowsAppend | lib/convert.py:51 | `writerows` appends exactly one line per row, in order |
| CsvWriter.FormatRecordChars | lib/convert.py:49-51 | every character on a written line is a delimiter, a quote, or a character of one of the fields |
| CsvReader.FirstBreak | lib/convert.py:43 | the first line-break character that `splitlines` recognises, or the end of the text |
| CsvReader.SplitLines | lib/convert.py:43 | `str.splitlines`: no lines exactly for the empty text, and never more lines than characters; SplitFirstLine and SplitWrittenRows give the lines |
| CsvReader.Step | lib/convert.py:43 | one character of the `_csv` parser never drops a saved field and saves at most one; it fails only with `csv.Error` |
| CsvReader.ReadAll | lib/convert.py:43 | `list(csv.reader(lines))` raises only `csv.Error`; ReadFormattedLines and RoundTrip give what it reads |
| CsvReader.SplitFirstLine | lib/convert.py:43 | `splitlines` splits a line ended by `\r\n` from the rest as one line |
| CsvReader.SplitWrittenRows | lib/convert.py:43-51 | `splitlines` of the writer's output gives back the written lines, one per record |
| CsvReader.ReadField | lib/convert.py:43 | the reader reads back any written field exactly, quoted or not |
| CsvReader.ReadFormattedRecord | lib/convert.py:43 | one written line is read back as exactly its record, including a record that is a single empty field |
| CsvReader.ReadFormattedLines | lib/convert.py:43 | the reader turns the written lines back into the records |
| CsvReader.FeedAppend | lib/convert.py:43 | the reader over `a + b` is the reader over `a`, then over `b` from where it stopped, and an error in `a` stops it |
| CsvReader.RoundTrip | lib/convert.py:43-51 | for fields within the field limit and without line breaks, reading back `writerows` output gives the records |
| CsvConverter.Lookup | lib/convert.py:51 | one value per field name, the row's value or `""` when the row lacks the key |
| CsvConverter.RowValues | lib/convert.py:51 | `_dict_to_list`: on success one value per field name; otherwise a `ValueError` naming a non-empty set of keys; RowValuesFails gives exactly when, Lookup the values |
| CsvConverter.SerialiseSpec | lib/convert.py:47-52 | `serialise`: only a non-empty list serialises; SerialiseFailures gives every failure and SerialiseLines the text |
| CsvConverter.Serialise | lib/convert.py:47-52 | the method that writes into the buffer returns what the serialise specification gives |
| CsvConverter.WriteBuffer | lib/convert.py:48-52 | the buffer holds the header line, then one line per row, with the loop stopping at the first row that fails |
| CsvConverter.AllRowValuesAppend | lib/convert.py:51 | one more row leaves an earlier failure as it is, fails with its own error, or adds its record |
| CsvConverter.AllRowValuesStops | lib/convert.py:51 | a failure within the first rows decides the outcome for all of them |
| CsvConverter.SerialiseFailures | lib/convert.py:47-51 | a single dict raises `KeyError` (`d[0]`); an empty list raises `IndexError`; otherwise it fails exactly when some row has a key the first row lacks |
| CsvConverter.RowValuesFails | lib/convert.py:51 | `DictWriter` rejects one row exactly when it has a key outside the field names |
| CsvConverter.AllRowValuesFails | lib/convert.py:51 | `writerows` fails exactly when some row has a key outside the field names |
| CsvConverter.AllRowValuesOk | lib/convert.py:51 | on success there is one record per row, in order, holding that row's value for each field name or `""` |
| CsvConverter.SerialiseLines | lib/convert.py:47-52 | a successful output is the header line followed by one line per row, with each row's value for each field name in field-name order |
| CsvConverter.NonBlank | lib/convert.py:44 | `DictReader` keeps exactly the non-blank records, and never more records than it was given |
| CsvConverter.NonBlankAppend | lib/convert.py:44 | filtering keeps the order: the kept records of two runs of records, one after the other |
| CsvConverter.BuildRows | lib/convert.py:44 | `DictReader` over the records after the header: never more dicts than records, and a failure names a ragged record at or after the current one; BuildRowsShape and BuildRowsOfUniform give the dicts |
| CsvConverter.DictRows | lib/convert.py:44 | the first record is the header, never a dict: fewer dicts than records, and a failure never names the header |
| CsvConverter.Deserialise | lib/convert.py:42-44 | `deserialise`: always a list; fails only with a `csv.Error` or a ragged record; the empty text gives `[]`; DeserialiseShape, RoundTrip and RoundTripAsDicts give the rest |
| CsvConverter.ZippedRecord | lib/convert.py:44 | a record the width of the header becomes a dict with the header's keys and the record's values |
| CsvConverter.BuildRowsShape | lib/convert.py:44 | `DictReader` gives one dict per non-blank record, each with distinct keys and, under a header of distinct names, exactly the header's keys and the record's values |
| CsvConverter.DeserialiseShape | lib/convert.py:42-44 | deserialising always gives a list: empty for an empty text, otherwise one dict per non-blank record after the header |
| CsvConverter.AllValues | lib/convert.py:51 | the value lists of the rows, one per row |
| CsvConverter.RowValuesOfKeyed | lib/convert.py:51 | a row whose keys are exactly the field names, in that order, is written as its values |
| CsvConverter.AllRowValuesOfUniform | lib/convert.py:51 | rows that all have the field names as their keys are written as their values |
| CsvConverter.BuildRowsOfUniform | lib/convert.py:44 | `DictReader` rebuilds rows that all share a header of distinct names from their value lists |
| CsvConverter.RoundTrip | lib/convert.py:40-52 | a table with uniform keys and line-free fields serialises, and deserialising the text gives the table back |
| CsvConverter.CanonicalTextIsFixed | lib/convert.py:40-52 | the CSV text of such a table deserialises and serialises back to the same text, byte for byte |
| CsvConverter.InHeaderOrder | lib/convert.py:43-51 | the dict read back from a row's line has the header's keys, in the header's order, with the row's values (`""` for a missing key) |
| CsvConverter.RoundTripAsDicts | lib/convert.py:40-52 | a table whose rows are dicts holding the first row's keys in any order, with line-free fields, serialises, and every dict read back is `==` to its original: the same keys with the same values, in header order |
| CsvConverter.AllRowValuesWithin | lib/convert.py:51 | rows whose keys are all field names are written as their values put in field-name order |
| CsvConverter.HeaderOrderSameDict | lib/convert.py:43-51 | a dict and its copy in header order have the same keys and the same value under each key |
| Records.GetIsStored | lib/convert.py:51 | what `get` finds under a key the dict holds is the value of a field with that key |
| CsvTestData.SerialiseTestData | tests/test_convert.py:70-75 | serialising the two test records gives the expected CSV text, with only the address quoted |
| CsvTestData.DeserialiseTestData | tests/test_convert.py:61-67 | deserialising the expected CSV text gives the two test records |
| CsvTestData.PeopleTextIsLiteral | tests/test_convert.py:70-73 | the expected CSV text is the tests' `CSV_STRING_DATA` literal, line by line |
| JsonConverter.HexDigit | lib/convert.py:62 | the escape digits are lower-case hexadecimal, and each digit reads back as its value |
| JsonConverter.EscapeChar | lib/convert.py:62 | each character becomes a non-empty escape, and it stays as it is exactly when it is printable ASCII other than `\` and `"` |
| JsonConverter.EscapeCharAscii | lib/convert.py:62 | every escape, surrogate pairs included, is printable ASCII |
| JsonConverter.EscapeAll | lib/convert.py:62 | the escaped string is no shorter than the string |
| JsonConverter.EscapeAllAscii | lib/convert.py:62 | an escaped string is printable ASCII, whatever characters it started with |
| JsonConverter.SerialiseAscii | lib/convert.py:60-62 | with `ensure_ascii`, `json.dumps` output is printable ASCII whatever the data |
| JsonConverter.Serialise | lib/convert.py:60-62 | `json.dumps(d)`: a list is written in brackets and a dict in braces; SerialiseAscii, SerialiseRead and SerialiseInjective give the rest |
| JsonConverter.Hex4RoundTrip | lib/convert.py:62 | the four hex digits of a code unit read back as that code unit |
| JsonConverter.SurrogateSplit | lib/convert.py:62 | the high and low surrogates of such a character recombine to it |
| JsonConverter.SurrogatePairRead | lib/convert.py:62 | the escapes of that surrogate pair read back as the character |
| JsonConverter.EscapeCharRead | lib/convert.py:62 | every escaped character reads back as itself, and the text after it is untouched |
| JsonConverter.EscapeAllRead | lib/convert.py:62 | an escaped string reads back up to its closing quote |
| JsonConverter.EncodeStringRead | lib/convert.py:62 | an encoded string reads back, leaving what follows it |
| JsonConverter.EncodePairRead | lib/convert.py:62 | a `"key": "value"` pair reads back as that field |
| JsonConverter.EncodeRowRead | lib/convert.py:62 | an encoded dict reads back as that dict, with its keys in their order |
| JsonConverter.EncodeTableRead | lib/convert.py:62 | an encoded list of dicts reads back as that list |
| JsonConverter.SerialiseRead | lib/convert.py:60-62 | reading the output of `json.dumps` gives the data back |
| JsonConverter.SerialiseInjective | lib/convert.py:60-62 | different data never serialise to the same text |
| JsonTestData.SerialiseTestData | tests/test_convert.py:86-89 | serialising the two test records gives the expected JSON text |
| JsonTestData.PeopleJsonIsLiteral | tests/test_convert.py:87 | the expected JSON text is the tests' `JSON_STRING_DATA` literal, pair by pair |
| JsonTestData.EscapeAllPlain | lib/convert.py:62 | plain printable ASCII is written without escapes |
| Converters.Serialise | lib/convert.py:24-73 | each converter's `serialise`, with the CSV one writing into its buffer, gives what the specification of that converter gives |
| Converters.Deserialise | lib/convert.py:18-73 | each class's `deserialise`: the YAML one always raises and the CSV one gives a list; BaseIsConstant and YamlAlwaysFails give the rest |
| Converters.SerialiseSpec | lib/convert.py:18-73 | each class's `serialise`: the JSON one never raises, the YAML one always does, and the CSV one succeeds only on a non-empty list |
| Converters.BaseIsConstant | lib/convert.py:18-27 | the base converter returns `{}` and `""` whatever its input |
| Converters.YamlAlwaysFails | lib/convert.py:65-73 | both methods of the YAML converter always raise |
| Converters.JsonSerialiseSucceeds | lib/convert.py:55-62 | the JSON converter's `serialise` never fails, and its output is ASCII that reads back as the data |
| FileSystem.FileStore.constructor | lib/convert.py:112-120 | a store holds the given files and the given read-only paths |
| FileSystem.FileStore.Read | lib/convert.py:112-113 | reading an existing file gives its text; reading a missing file raises `FileNotFoundError` |
| FileSystem.FileStore.Write | lib/convert.py:119-120 | writing a read-only path raises and changes nothing; otherwise the file's text is replaced and no other file changes |
| ConvertInput.Extensions | lib/convert.py:88-89 | the extensions of the table, in order |
| ConvertInput.Find | lib/convert.py:98 | a lookup finds a converter exactly when the extension is in the table, and then that extension's entry |
| ConvertInput.Resolve | lib/convert.py:94-100 | a name resolves exactly when its extension is in the table, to that extension's converter; otherwise it fails with "Unrecognised file type: " and the name |
| ConvertInput.Conversion | lib/convert.py:102-121 | `do_conversion` on values: success leaves a writable output file, and a missing input always fails; SuccessWritesOutput, FailureWritesNothing and ResolutionComesFirst give the whole outcome |
| ConvertInput.ConvertInput.constructor | lib/convert.py:78-84 | a new object maps `.py`, `.csv` and `.json` to their converters |
| ConvertInput.ConvertInput.GetSupportedExtensions | lib/convert.py:86-92 | returns the table's extensions, one per entry, in order |
| ConvertInput.ConvertInput.GetConverter | lib/convert.py:94-100 | a name resolves exactly when its extension is in the object's table, to the converter of that extension's entry; otherwise it raises "Unrecognised file type: " followed by the name |
| ConvertInput.ConvertInput.DoConversion | lib/convert.py:102-121 | the result and the files afterwards are those of the conversion, and the read-only set is unchanged |
| ConvertInput.DefaultExtensions | lib/convert.py:80-92 | the supported extensions are `.py`, `.csv` and `.json`, in that order |
| ConvertInput.DefaultResolve | lib/convert.py:80-100 | `.py`, `.csv` and `.json` resolve to their converters, and nothing else does; the base and YAML converters are never returned |
| ConvertInput.ResolveInDirectory | lib/convert.py:94-100 | `dir/stem.ext` resolves exactly for `csv`, `py` and `json`, compared case for case, so `CSV` and `yaml` are rejected |
| ConvertInput.ResolveByExtension | lib/convert.py:94-100 | a name whose extension is `.ext` resolves exactly when `ext` is `csv`, `py` or `json`, to that converter |
| ConvertInput.ResolveWithoutExtension | lib/convert.py:94-100 | a name with no dot, or whose only dot leads it, is rejected |
| ConvertInput.FailureWritesNothing | lib/convert.py:102-121 | when the conversion raises one of the modelled errors, no file has changed |
| ConvertInput.SuccessWritesOutput | lib/convert.py:102-121 | the conversion succeeds exactly when both names resolve, the input exists, both codecs succeed and the output is writable; it then returns the deserialised data and writes only the output file, with the serialised text |
| ConvertInput.ResolutionComesFirst | lib/convert.py:107-113 | an unknown input extension is reported first, then an unknown output extension, and only then a missing input file |
| ConvertInput.ConversionSucceeds | lib/convert.py:102-121 | when every step succeeds, the data is returned and the output file holds the text |
| ConvertInput.CsvReadsBack | lib/convert.py:40-44 | the CSV converter reads back the CSV text of a representable table |
| ConvertInput.CsvToCsvCopies | tests/test_convert.py:107-113 | converting a canonical CSV file to CSV returns its table and leaves the output identical to the input |
| ConvertInput.CsvToJsonOutcome | lib/convert.py:102-121 | converting a canonical CSV file to JSON returns its table and writes the table's JSON text to the output |
| ConvertInput.CsvToJsonKeepsRows | lib/convert.py:102-121 | after a CSV-to-JSON conversion the output is ASCII JSON that reads back as the input's table |
| ConvertInput.JsonOutput | lib/convert.py:102-121 | a successful conversion to a `.json` name writes the JSON text of the data |

## Left out

- `PyConverter` (lib/convert.py:30-37): `ast.literal_eval` and `repr` belong
  to the Python runtime. They are the `literalEval` and `repr` fields of the
  `Library` parameter, so the model says nothing about Python literal syntax.
- `JsonConverter.deserialise` (lib/convert.py:57-58): `json.loads` is the
  `jsonLoads` field of the `Library` parameter. `JsonConverter.Read` is a
  reader for the output of `serialise` only, not a general JSON parser.
- Values other than strings: the model's dicts map strings to strings.
  Numbers, nested lists and dicts, `None` and booleans are not modelled, so
  neither is the way `repr` and `json.dumps` write them.
- `CsvConverter.Deserialise`: a record whose width differs from the header's
  is the error `RaggedRow`. `csv.DictReader` instead collects extra values
  under the key `None`, or fills missing ones with `None`. Neither of those
  is a string key or value.
- CSV values that contain line breaks: `splitlines` splits inside a quoted
  field, and the line break itself is lost. `CsvConverter.RoundTrip`,
  `CsvConverter.RoundTripAsDicts` and `CsvConverter.CanonicalTextIsFixed`
  are proved only for values without line breaks, within the reader's
  131072-character field limit, and for a first row that is not empty. The
  source writes `[{}]` as `"\r\n\r\n"` (an empty header, then a blank
  record), which reads back as `[]`.
- CsvConverter.RoundTrip: compares the table read back with Dafny's `==`,
  for which key order matters, so it needs every row to hold the first
  row's keys in the first row's order. Python's dict `==` ignores order, and
  the source also round-trips rows whose keys are reordered:
  `CsvConverter.RoundTripAsDicts` covers those, comparing each dict read
  back with `SameDict`. Rows lacking some of the first row's keys come back
  with `""` under them, and rows with other keys raise, in the source as in
  the model.
- `ConvertInput.ConvertInput.GetSupportedExtensions`: the `printout`
  argument and its `print` call (lib/convert.py:90-91) are console output
  and are not modelled.
- The command-line entry point (lib/convert.py:124-139): argument parsing
  and printing.
- File I/O beyond the two failures modelled:
  - `FileStore.Read` fails only for a missing file, and `FileStore.Write`
    only for a path that cannot be written.
  - Directories, encodings, disk errors and text-mode newline translation
    are not modelled.
  - The store holds file text without newline translation.
    `ConvertInput.CsvToCsvCopies` covers input with `\r\n` line endings
    only, which is the writer's canonical form.
- FileSystem.FileStore.Write: `open(output_file, "w")` (lib/convert.py:119-120)
  truncates the file before `write` runs, so a write that fails after
  opening (an encoding error, a full disk) would leave an empty output. The
  model's write is all-or-nothing, and `ConvertInput.FailureWritesNothing`
  covers only the failures the model has, all of which happen before the
  output is opened.
- Lone surrogates: a Python `str` can hold an unpaired surrogate, for
  instance one returned by `json.loads`, and `json.dumps` writes it as a
  `\udXXX` escape. A Dafny `string` cannot hold one, so the model's JSON
  results cover only strings of whole characters.
- The exception classes: Python raises `KeyError`, `IndexError`,
  `ValueError`, `TypeError` (from `raise NotImplemented`) and `Exception`.
  The model keeps one `Error` variant per cause instead of Python's class
  hierarchy. `get_converter` rewraps the `KeyError` into an `Exception`;
  the model keeps only that exception's message.
