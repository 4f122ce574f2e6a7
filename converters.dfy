/**
 * The converter classes of `lib/convert.py` as one handler type with a
 * variant per class, and their two static methods as dispatch on it.  The
 * Python-literal codec (`ast.literal_eval`, `repr`) and `json.loads` belong
 * to the standard library and are parameters of the model.
 */
module Converters {
  import opened Errors
  import opened Records
  import CsvConverter
  import JsonConverter

  /** `BaseConverter`, `PyConverter`, `CsvConverter`, `JsonConverter`, `YamlConverter` */
  datatype Converter = Base | Py | Csv | Json | Yaml

  /** The library codecs the converters call and the model leaves opaque. */
  datatype Library = Library(
    literalEval: string -> Result<Data>,
    repr: Data -> string,
    jsonLoads: string -> Result<Data>)

  /** `converter.deserialise(s)` */
  function Deserialise(c: Converter, lib: Library, s: string): (r: Result<Data>)
    ensures c == Yaml ==> r.Err?
    ensures c == Csv && r.Ok? ==> r.value.Table?
  {
    match c
    case Base => Ok(Object([]))
    case Py => lib.literalEval(s)
    case Csv => CsvConverter.Deserialise(s)
    case Json => lib.jsonLoads(s)
    case Yaml => Err(NotAnException)
  }

  /** What `converter.serialise(d)` returns or raises. */
  function SerialiseSpec(c: Converter, lib: Library, d: Data): (r: Result<string>)
    ensures c == Json ==> r.Ok?
    ensures c == Yaml ==> r.Err?
    ensures c == Csv && r.Ok? ==> d.Table? && |d.rows| > 0
  {
    match c
    case Base => Ok("")
    case Py => Ok(lib.repr(d))
    case Csv => CsvConverter.SerialiseSpec(d)
    case Json => Ok(JsonConverter.Serialise(d))
    case Yaml => Err(NotAnException)
  }

  /** `converter.serialise(d)`; the CSV converter writes into its buffer. */
  method Serialise(c: Converter, lib: Library, d: Data) returns (r: Result<string>)
    ensures r == SerialiseSpec(c, lib, d)
  {
    match c
    case Base => r := Ok("");
    case Py => r := Ok(lib.repr(d));
    case Csv => r := CsvConverter.Serialise(d);
    case Json => r := Ok(JsonConverter.Serialise(d));
    case Yaml => r := Err(NotAnException);
  }

  /** `BaseConverter` ignores its input: `{}` and `""` for everything. */
  lemma BaseIsConstant(lib: Library, s: string, d: Data)
    ensures Deserialise(Base, lib, s) == Ok(Object([]))
    ensures SerialiseSpec(Base, lib, d) == Ok("")
  {
  }

  /** `YamlConverter` raises on every call. */
  lemma YamlAlwaysFails(lib: Library, s: string, d: Data)
    ensures Deserialise(Yaml, lib, s).Err? && SerialiseSpec(Yaml, lib, d).Err?
  {
  }

  /** The JSON converter never fails to serialise string records, and what
      it writes is printable ASCII that reads back as the same records. */
  lemma JsonSerialiseSucceeds(lib: Library, d: Data)
    ensures SerialiseSpec(Json, lib, d) == Ok(JsonConverter.Serialise(d))
    ensures JsonConverter.IsAscii(SerialiseSpec(Json, lib, d).value)
    ensures JsonConverter.Read(SerialiseSpec(Json, lib, d).value) == Some(d)
  {
    JsonConverter.SerialiseAscii(d);
    JsonConverter.SerialiseRead(d);
  }
}
