/**
 * `ConvertInput`: the registry from file extension to converter, and
 * `do_conversion`, which reads a file in one format and writes it in
 * another.
 */
module ConvertInput {
  import opened Errors
  import opened Records
  import opened PathExt
  import opened Converters
  import opened FileSystem
  import CsvConverter
  import JsonConverter

  /** One entry of `converter_type_map`. */
  datatype Entry = Entry(ext: string, converter: Converter)

  /** The map `__init__` builds, in insertion order. */
  const DefaultTypeMap: seq<Entry> := [Entry(".py", Py), Entry(".csv", Csv), Entry(".json", Json)]

  /** The extensions of a map, in order. */
  function Extensions(typeMap: seq<Entry>): (exts: seq<string>)
    ensures |exts| == |typeMap|
    ensures forall i :: 0 <= i < |typeMap| ==> exts[i] == typeMap[i].ext
  {
    if typeMap == [] then [] else [typeMap[0].ext] + Extensions(typeMap[1..])
  }

  /** `type_map[ext]`, or nothing when `ext` is not a key. */
  function Find(typeMap: seq<Entry>, ext: string): (r: Option<Converter>)
    ensures r.Some? <==> ext in Extensions(typeMap)
    ensures r.Some? ==> exists i :: 0 <= i < |typeMap| && typeMap[i] == Entry(ext, r.value)
  {
    if typeMap == [] then None
    else if typeMap[0].ext == ext then Some(typeMap[0].converter)
    else
      var r := Find(typeMap[1..], ext);
      assert r.Some? ==> exists i :: 0 <= i < |typeMap| - 1 && typeMap[1..][i] == Entry(ext, r.value);
      r
  }

  /** `get_converter(filename)` against a map: the converter of the
      filename's extension, or the error naming the file. */
  function Resolve(typeMap: seq<Entry>, filename: string): (r: Result<Converter>)
    ensures r.Ok? <==> Extension(filename) in Extensions(typeMap)
    ensures r.Ok? ==> Entry(Extension(filename), r.value) in typeMap
    ensures r.Err? ==> r.error == UnrecognisedFileType("Unrecognised file type: " + filename)
  {
    match Find(typeMap, Extension(filename))
    case Some(c) => Ok(c)
    case None => Err(UnrecognisedFileType("Unrecognised file type: " + filename))
  }

  /** The result of a conversion and the files afterwards. */
  datatype Outcome = Outcome(result: Result<Data>, files: map<string, string>)

  /** `do_conversion(input_file, output_file)` on the files `files`, of which
      those in `readOnly` cannot be written: both converters are resolved,
      input first, before the input is read; the output is written only once
      deserialising and serialising have both succeeded. */
  function Conversion(typeMap: seq<Entry>, inputFile: string, outputFile: string,
                      files: map<string, string>, readOnly: set<string>, lib: Library): (out: Outcome)
    ensures out.result.Ok? ==> outputFile in out.files && outputFile !in readOnly
    ensures inputFile !in files ==> out.result.Err?
  {
    var deserialiser := Resolve(typeMap, inputFile);
    var serialiser := Resolve(typeMap, outputFile);
    if deserialiser.Err? then Outcome(Err(deserialiser.error), files)
    else if serialiser.Err? then Outcome(Err(serialiser.error), files)
    else if inputFile !in files then Outcome(Err(FileNotFound(inputFile)), files)
    else
      var data := Deserialise(deserialiser.value, lib, files[inputFile]);
      if data.Err? then Outcome(data, files)
      else
        var text := SerialiseSpec(serialiser.value, lib, data.value);
        if text.Err? then Outcome(Err(text.error), files)
        else if outputFile in readOnly then Outcome(Err(PermissionDenied(outputFile)), files)
        else Outcome(data, files[outputFile := text.value])
  }

  class ConvertInput {
    /** `converter_type_map`: extension to converter. */
    var converterTypeMap: seq<Entry>

    /** `__init__` */
    constructor ()
      ensures converterTypeMap == DefaultTypeMap
    {
      converterTypeMap := DefaultTypeMap;
    }

    /** `get_supported_extensions()`: the map's keys, in insertion order. */
    method GetSupportedExtensions() returns (extList: seq<string>)
      ensures |extList| == |converterTypeMap|
      ensures forall i :: 0 <= i < |extList| ==> extList[i] == converterTypeMap[i].ext
    {
      extList := [];
      var i := 0;
      while i < |converterTypeMap|
        invariant 0 <= i <= |converterTypeMap|
        invariant |extList| == i
        invariant forall j :: 0 <= j < i ==> extList[j] == converterTypeMap[j].ext
      {
        extList := extList + [converterTypeMap[i].ext];
        i := i + 1;
      }
    }

    /** `get_converter(filename)` */
    function GetConverter(filename: string): (r: Result<Converter>)
      reads this
      ensures r.Ok? <==> Extension(filename) in Extensions(converterTypeMap)
      ensures r.Ok? ==> Entry(Extension(filename), r.value) in converterTypeMap
      ensures r.Err? ==> r.error == UnrecognisedFileType("Unrecognised file type: " + filename)
      // ties the method `DoConversion` to the function `Conversion`, which resolves by `Resolve`
      ensures r == Resolve(converterTypeMap, filename)
    {
      Resolve(converterTypeMap, filename)
    }

    /** `do_conversion(input_file, output_file)` against the file store `fs`:
        returns the deserialised data, and leaves the store as `Conversion`
        says. */
    method DoConversion(inputFile: string, outputFile: string, fs: FileStore, lib: Library)
      returns (r: Result<Data>)
      modifies fs
      ensures fs.readOnly == old(fs.readOnly)
      ensures Outcome(r, fs.files) ==
        Conversion(converterTypeMap, inputFile, outputFile, old(fs.files), old(fs.readOnly), lib)
    {
      var deserialiser := GetConverter(inputFile);
      if deserialiser.Err? {
        return Err(deserialiser.error);
      }
      var serialiser := GetConverter(outputFile);
      if serialiser.Err? {
        return Err(serialiser.error);
      }
      var inputString := fs.Read(inputFile);
      if inputString.Err? {
        return Err(inputString.error);
      }
      var data := Deserialise(deserialiser.value, lib, inputString.value);
      if data.Err? {
        return data;
      }
      var outputString := Serialise(serialiser.value, lib, data.value);
      if outputString.Err? {
        return Err(outputString.error);
      }
      var written := fs.Write(outputFile, outputString.value);
      if written.Err? {
        return Err(written.error);
      }
      return data;
    }
  }

  // ----- the registry -----------------------------------------------------

  /** `get_supported_extensions()` on a fresh `ConvertInput`: exactly these. */
  lemma DefaultExtensions()
    ensures Extensions(DefaultTypeMap) == [".py", ".csv", ".json"]
  {
  }

  /** A fresh `ConvertInput` maps `.py`, `.csv` and `.json` to their
      converters, rejects every other extension, and never hands out the
      base or the YAML converter. */
  lemma DefaultResolve(filename: string)
    ensures Resolve(DefaultTypeMap, filename) == Ok(Py) <==> Extension(filename) == ".py"
    ensures Resolve(DefaultTypeMap, filename) == Ok(Csv) <==> Extension(filename) == ".csv"
    ensures Resolve(DefaultTypeMap, filename) == Ok(Json) <==> Extension(filename) == ".json"
    ensures Resolve(DefaultTypeMap, filename).Err? <==> Extension(filename) !in {".py", ".csv", ".json"}
    ensures Resolve(DefaultTypeMap, filename) != Ok(Base) && Resolve(DefaultTypeMap, filename) != Ok(Yaml)
  {
    DefaultFind(Extension(filename));
  }

  /** A file in a directory resolves by the text after the last dot of its
      name, compared case for case: `csv`, `py` and `json` find their
      converters and every other extension, `CSV` and `yaml` among them, is
      rejected. */
  lemma ResolveInDirectory(dir: string, stem: string, ext: string)
    requires stem != [] && stem[0] != '.' && '/' !in stem
    requires '.' !in ext && '/' !in ext
    ensures var r := Resolve(DefaultTypeMap, dir + "/" + stem + "." + ext);
      && (r == Ok(Csv) <==> ext == "csv")
      && (r == Ok(Py) <==> ext == "py")
      && (r == Ok(Json) <==> ext == "json")
      && (r.Err? <==> ext !in {"csv", "py", "json"})
  {
    ExtensionInDirectory(dir, stem, ext);
    ResolveByExtension(dir + "/" + stem + "." + ext, ext);
  }

  lemma ResolveByExtension(filename: string, ext: string)
    requires Extension(filename) == "." + ext
    ensures var r := Resolve(DefaultTypeMap, filename);
      && (r == Ok(Csv) <==> ext == "csv")
      && (r == Ok(Py) <==> ext == "py")
      && (r == Ok(Json) <==> ext == "json")
      && (r.Err? <==> ext !in {"csv", "py", "json"})
  {
    var e := Extension(filename);
    assert "." + "csv" == ".csv" && "." + "py" == ".py" && "." + "json" == ".json";
    DotPrefix(ext, "csv");
    DotPrefix(ext, "py");
    DotPrefix(ext, "json");
    DefaultFind(e);
  }

  /** The lookup in a fresh `ConvertInput`'s table, extension by extension. */
  lemma DefaultFind(e: string)
    ensures Find(DefaultTypeMap, e) ==
      if e == ".py" then Some(Py) else if e == ".csv" then Some(Csv) else if e == ".json" then Some(Json) else None
  {
  }

  lemma DotPrefix(a: string, b: string)
    ensures "." + a == "." + b <==> a == b
  {
    if "." + a == "." + b {
      assert a == ("." + a)[1..];
    }
  }

  /** A name without a dot, or whose only dot is the leading one, has no
      extension and is rejected. */
  lemma ResolveWithoutExtension(filename: string)
    requires '.' !in filename || (filename[0] == '.' && '.' !in filename[1..])
    ensures Resolve(DefaultTypeMap, filename).Err?
  {
    ExtensionCharacterised(filename, 0);
    DefaultResolve(filename);
  }

  // ----- the pipeline -----------------------------------------------------

  /** When the conversion fails, for whatever reason, no file has changed. */
  lemma FailureWritesNothing(typeMap: seq<Entry>, inputFile: string, outputFile: string,
                             files: map<string, string>, readOnly: set<string>, lib: Library)
    ensures var out := Conversion(typeMap, inputFile, outputFile, files, readOnly, lib);
      out.result.Err? ==> out.files == files
  {
    var out := Conversion(typeMap, inputFile, outputFile, files, readOnly, lib);
    var deserialiser, serialiser := Resolve(typeMap, inputFile), Resolve(typeMap, outputFile);
    if deserialiser.Ok? && serialiser.Ok? && inputFile in files {
      var data := Deserialise(deserialiser.value, lib, files[inputFile]);
      if data.Ok? {
        var text := SerialiseSpec(serialiser.value, lib, data.value);
        if text.Ok? && outputFile !in readOnly {
          assert out.result == data;
        } else {
          assert out.files == files;
        }
      } else {
        assert out.files == files;
      }
    } else {
      assert out.files == files;
    }
  }

  /** A conversion succeeds exactly when both extensions are registered, the
      input file exists, deserialising and serialising succeed and the output
      may be written; then the output file holds the serialised data, every
      other file is as it was, and the data is what the call returns. */
  lemma SuccessWritesOutput(typeMap: seq<Entry>, inputFile: string, outputFile: string,
                            files: map<string, string>, readOnly: set<string>, lib: Library)
    ensures var out := Conversion(typeMap, inputFile, outputFile, files, readOnly, lib);
      out.result.Ok? <==>
        && Resolve(typeMap, inputFile).Ok? && Resolve(typeMap, outputFile).Ok?
        && inputFile in files
        && Deserialise(Resolve(typeMap, inputFile).value, lib, files[inputFile]).Ok?
        && SerialiseSpec(Resolve(typeMap, outputFile).value, lib,
             Deserialise(Resolve(typeMap, inputFile).value, lib, files[inputFile]).value).Ok?
        && outputFile !in readOnly
    ensures var out := Conversion(typeMap, inputFile, outputFile, files, readOnly, lib);
      out.result.Ok? ==>
        var data := Deserialise(Resolve(typeMap, inputFile).value, lib, files[inputFile]).value;
        && out.result.value == data
        && out.files == files[outputFile := SerialiseSpec(Resolve(typeMap, outputFile).value, lib, data).value]
  {
  }

  /** Both file names are checked before the input is read: an unregistered
      extension is reported, the input file's first, even when the input
      file does not exist. */
  lemma ResolutionComesFirst(typeMap: seq<Entry>, inputFile: string, outputFile: string,
                             files: map<string, string>, readOnly: set<string>, lib: Library)
    ensures var out := Conversion(typeMap, inputFile, outputFile, files, readOnly, lib);
      && (Extension(inputFile) !in Extensions(typeMap) ==>
            out.result == Err(UnrecognisedFileType("Unrecognised file type: " + inputFile)))
      && (Extension(inputFile) in Extensions(typeMap) && Extension(outputFile) !in Extensions(typeMap) ==>
            out.result == Err(UnrecognisedFileType("Unrecognised file type: " + outputFile)))
      && (Extension(inputFile) in Extensions(typeMap) && Extension(outputFile) in Extensions(typeMap)
          && inputFile !in files
          ==> out.result == Err(FileNotFound(inputFile)))
  {
  }

  /** The outcome of a conversion whose every step succeeds. */
  lemma ConversionSucceeds(typeMap: seq<Entry>, inputFile: string, outputFile: string,
                           files: map<string, string>, readOnly: set<string>, lib: Library,
                           data: Data, text: string)
    requires Resolve(typeMap, inputFile).Ok? && Resolve(typeMap, outputFile).Ok?
    requires inputFile in files && outputFile !in readOnly
    requires Deserialise(Resolve(typeMap, inputFile).value, lib, files[inputFile]) == Ok(data)
    requires SerialiseSpec(Resolve(typeMap, outputFile).value, lib, data) == Ok(text)
    ensures Conversion(typeMap, inputFile, outputFile, files, readOnly, lib) == Outcome(Ok(data), files[outputFile := text])
  {
  }

  /** Converting a `.csv` file that the CSV converter wrote to another
      `.csv` file copies it exactly and returns the rows it holds. */
  lemma CsvToCsvCopies(rows: seq<Row>, inputFile: string, outputFile: string,
                       files: map<string, string>, readOnly: set<string>, lib: Library)
    requires CsvConverter.Representable(rows)
    requires Extension(inputFile) == ".csv" && Extension(outputFile) == ".csv"
    requires inputFile in files && Ok(files[inputFile]) == CsvConverter.SerialiseSpec(Table(rows))
    requires outputFile !in readOnly
    ensures var out := Conversion(DefaultTypeMap, inputFile, outputFile, files, readOnly, lib);
      && out.result == Ok(Table(rows))
      && out.files == files[outputFile := files[inputFile]]
  {
    DefaultResolve(inputFile);
    DefaultResolve(outputFile);
    CsvReadsBack(rows, files[inputFile], lib);
    CsvConverter.CanonicalTextIsFixed(rows);
    ConversionSucceeds(DefaultTypeMap, inputFile, outputFile, files, readOnly, lib, Table(rows), files[inputFile]);
  }

  /** Converting such a `.csv` file to `.json` writes printable ASCII that
      reads back as the same rows. */
  lemma CsvToJsonKeepsRows(rows: seq<Row>, inputFile: string, outputFile: string,
                           files: map<string, string>, readOnly: set<string>, lib: Library)
    requires CsvConverter.Representable(rows)
    requires Extension(inputFile) == ".csv" && Extension(outputFile) == ".json"
    requires inputFile in files && Ok(files[inputFile]) == CsvConverter.SerialiseSpec(Table(rows))
    requires outputFile !in readOnly
    ensures var out := Conversion(DefaultTypeMap, inputFile, outputFile, files, readOnly, lib);
      && out.result == Ok(Table(rows))
      && outputFile in out.files
      && JsonConverter.IsAscii(out.files[outputFile])
      && JsonConverter.Read(out.files[outputFile]) == Some(Table(rows))
  {
    CsvToJsonOutcome(rows, inputFile, outputFile, files, readOnly, lib);
    JsonConverter.SerialiseAscii(Table(rows));
    JsonConverter.SerialiseRead(Table(rows));
  }

  /** Converting a canonical `.csv` file to a writable `.json` name returns
      the file's table and writes `json.dumps` of that table, changing no
      other file. */
  lemma CsvToJsonOutcome(rows: seq<Row>, inputFile: string, outputFile: string,
                         files: map<string, string>, readOnly: set<string>, lib: Library)
    requires CsvConverter.Representable(rows)
    requires Extension(inputFile) == ".csv" && Extension(outputFile) == ".json"
    requires inputFile in files && Ok(files[inputFile]) == CsvConverter.SerialiseSpec(Table(rows))
    requires outputFile !in readOnly
    ensures Conversion(DefaultTypeMap, inputFile, outputFile, files, readOnly, lib)
      == Outcome(Ok(Table(rows)), files[outputFile := JsonConverter.Serialise(Table(rows))])
  {
    DefaultResolve(inputFile);
    DefaultResolve(outputFile);
    CsvReadsBack(rows, files[inputFile], lib);
    JsonOutput(inputFile, outputFile, files, readOnly, lib, Table(rows));
  }

  /** A CSV text the CSV converter wrote deserialises to the rows it came from. */
  lemma CsvReadsBack(rows: seq<Row>, text: string, lib: Library)
    requires CsvConverter.Representable(rows)
    requires Ok(text) == CsvConverter.SerialiseSpec(Table(rows))
    ensures Deserialise(Csv, lib, text) == Ok(Table(rows))
  {
    CsvConverter.RoundTrip(rows);
  }

  /** The outcome of a successful conversion to a `.json` file. */
  lemma JsonOutput(inputFile: string, outputFile: string, files: map<string, string>,
                   readOnly: set<string>, lib: Library, data: Data)
    requires Resolve(DefaultTypeMap, inputFile).Ok? && Resolve(DefaultTypeMap, outputFile) == Ok(Json)
    requires inputFile in files && outputFile !in readOnly
    requires Deserialise(Resolve(DefaultTypeMap, inputFile).value, lib, files[inputFile]) == Ok(data)
    ensures Conversion(DefaultTypeMap, inputFile, outputFile, files, readOnly, lib)
      == Outcome(Ok(data), files[outputFile := JsonConverter.Serialise(data)])
  {
    JsonSerialiseSucceeds(lib, data);
    ConversionSucceeds(DefaultTypeMap, inputFile, outputFile, files, readOnly, lib, data, JsonConverter.Serialise(data));
  }
}
