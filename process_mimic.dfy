/** process_mimic.py: sends each note of a NOTEEVENTS CSV to a cTAKES REST
    endpoint and writes the answer to `<ROW_ID>.<extension>`, in one of the
    output formats json, xmi, json-lite and fhir. */
module ProcessMimic {
  import opened Builtins

  const FormatJson: string := "json"
  const FormatXmi: string := "xmi"
  const FormatJsonLite: string := "json-lite"
  const FormatFhir: string := "fhir"

  /** The formats the script knows: the keys of `file_extensions`. */
  predicate KnownFormat(format: string)
  {
    format == FormatJson || format == FormatXmi || format == FormatJsonLite || format == FormatFhir
  }

  /** `file_extensions[format]`; None stands for the KeyError of an unknown
      format. */
  function Extension(format: string): Option<string>
  {
    if format == FormatJson then Some(FormatJson)
    else if format == FormatXmi then Some(FormatXmi)
    else if format == FormatJsonLite then Some(FormatJson)
    else if format == FormatFhir then Some(FormatFhir)
    else None
  }

  /** The extension table: json-lite shares json's extension, the other three
      keep their own name, and only the four known formats have one. */
  lemma ExtensionTable(format: string)
    ensures Extension(format).Some? <==> KnownFormat(format)
    ensures Extension(FormatJson) == Some("json") && Extension(FormatJsonLite) == Some("json")
    ensures Extension(FormatXmi) == Some("xmi") && Extension(FormatFhir) == Some("fhir")
    ensures KnownFormat(format) && format != FormatJsonLite ==> Extension(format) == Some(format)
  {
  }

  /** How the input file is read. */
  datatype Compression = Gzip | Plain

  /** The suffix check made before anything is read: `.csv.gz` is tried
      first, then `.csv`; None stands for the exception raised otherwise. */
  function InputKind(path: string): Option<Compression>
  {
    if EndsWith(path, ".csv.gz") then Some(Gzip)
    else if EndsWith(path, ".csv") then Some(Plain)
    else None
  }

  /** A path is accepted exactly when it ends with `.csv` or `.csv.gz`, and it
      is read as gzip exactly when it ends with `.csv.gz`. */
  lemma InputAccepted(path: string)
    ensures InputKind(path).Some? <==> EndsWith(path, ".csv.gz") || EndsWith(path, ".csv")
    ensures InputKind(path) == Some(Gzip) <==> EndsWith(path, ".csv.gz")
  {
  }

  /** A parsed JSON document as `r.json()` returns it. */
  datatype Json =
    | JNull
    | JBool(b: bool)
    | JNumber(n: int)
    | JString(s: string)
    | JArray(items: seq<Json>)
    | JObject(fields: map<string, Json>)

  /** `j[key]`; None stands for the KeyError or TypeError it raises when j is
      not an object holding key. */
  function Get(j: Json, key: string): Option<Json>
  {
    if j.JObject? && key in j.fields then Some(j.fields[key]) else None
  }

  /** The part of the response that is written: the `_views._InitialView`
      subtree for json, the whole body otherwise. */
  function SelectOutput(format: string, body: Json): (r: Option<Json>)
    ensures format != FormatJson ==> r == Some(body)
    ensures format == FormatJson ==>
              (r.Some? <==> body.JObject? && "_views" in body.fields
                            && body.fields["_views"].JObject? && "_InitialView" in body.fields["_views"].fields)
    ensures format == FormatJson && r.Some? ==> r.value == body.fields["_views"].fields["_InitialView"]
  {
    if format == FormatJson then
      match Get(body, "_views")
      case None => None
      case Some(views) => Get(views, "_InitialView")
    else Some(body)
  }

  /** A request parameter: a string or the row's remaining columns. */
  datatype ParamValue = PString(s: string) | PDict(d: map<string, string>)

  /** The parameters set before the row loop. */
  function InitialParams(format: string): map<string, ParamValue>
  {
    if format == FormatJson then map["format" := PString("full")]
    else if format == FormatXmi then map["format" := PString("xmi")]
    else map[]
  }

  /** Only json and xmi send a `format` parameter (`full` and `xmi`), and no
      parameter other than `format` is set before the loop. */
  lemma FormatParameter(format: string)
    ensures "format" in InitialParams(format) <==> format == FormatJson || format == FormatXmi
    ensures format == FormatJson ==> InitialParams(format)["format"] == PString("full")
    ensures format == FormatXmi ==> InitialParams(format)["format"] == PString("xmi")
    ensures forall k :: k in InitialParams(format) ==> k == "format"
  {
  }

  /** The parameters of the request for a note whose remaining columns are
      metadata. */
  function RequestParams(format: string, metadata: map<string, string>): map<string, ParamValue>
  {
    InitialParams(format)["metadata" := PDict(metadata)]
  }

  /** `row.pop('TEXT')`: the note's text and the columns left in the row;
      None stands for the KeyError of a row without TEXT. */
  function PopText(row: map<string, string>): (r: Option<(string, map<string, string>)>)
    ensures r.Some? <==> "TEXT" in row
    ensures r.Some? ==> r.value.0 == row["TEXT"]
    ensures r.Some? ==> "TEXT" !in r.value.1 && r.value.1.Keys + {"TEXT"} == row.Keys
    ensures r.Some? ==> forall k :: k in r.value.1 ==> r.value.1[k] == row[k]
  {
    if "TEXT" in row then Some((row["TEXT"], row - {"TEXT"})) else None
  }

  /** `'%s.%s' % (row['ROW_ID'], file_extensions[format])` */
  function OutputFileName(rowId: string, format: string): (name: Option<string>)
    ensures name.Some? <==> KnownFormat(format)
    ensures name.Some? ==> |name.value| == |rowId| + 1 + |Extension(format).value|
    ensures name.Some? ==> name.value[..|rowId|] == rowId && name.value[|rowId|] == '.'
    ensures name.Some? ==> name.value[|rowId| + 1..] == Extension(format).value
  {
    match Extension(format)
    case None => None
    case Some(ext) => Some(rowId + "." + ext)
  }

  /** json and json-lite output of a note go to the same file name. */
  lemma JsonAndLiteShareName(rowId: string)
    ensures OutputFileName(rowId, FormatJson) == OutputFileName(rowId, FormatJsonLite) == Some(rowId + ".json")
  {
    assert rowId + "." + "json" == rowId + ".json";
  }

  /** The exceptions that end a run (the loop has no `try`). */
  datatype Failure = BadInputPath | MissingColumn(column: string) | BadResponse | NotImplemented

  /** What one row leads to. */
  datatype RowEffect = Failed(failure: Failure) | NoFile | WriteFile(name: string, output: Json)

  /** The service: the text and parameters of the request, and the parsed
      body, None when `r.json()` raises. */
  type Service = (string, map<string, ParamValue>) -> Option<Json>

  /** One pass of the row loop. */
  function RowEffectOf(format: string, post: Service, row: map<string, string>): RowEffect
  {
    match PopText(row)
    case None => Failed(MissingColumn("TEXT"))
    case Some((text, metadata)) =>
      match post(text, RequestParams(format, metadata))
      case None => Failed(BadResponse)
      case Some(body) =>
        match SelectOutput(format, body)
        case None => Failed(BadResponse)
        case Some(output) =>
          if format == FormatFhir then Failed(NotImplemented)
          else if KnownFormat(format) then
            if "ROW_ID" in metadata then WriteFile(OutputFileName(metadata["ROW_ID"], format).value, output)
            else Failed(MissingColumn("ROW_ID"))
          else NoFile
  }

  /** The output directory after rows i.. and the exception that ended the
      run, if any. */
  datatype RunResult = RunResult(files: map<string, Json>, failure: Option<Failure>)

  function RunFrom(format: string, post: Service, rows: seq<map<string, string>>, i: nat,
                   files: map<string, Json>): RunResult
    requires i <= |rows|
    decreases |rows| - i
  {
    if i == |rows| then RunResult(files, None)
    else
      match RowEffectOf(format, post, rows[i])
      case Failed(f) => RunResult(files, Some(f))
      case NoFile => RunFrom(format, post, rows, i + 1, files)
      case WriteFile(name, output) => RunFrom(format, post, rows, i + 1, files[name := output])
  }

  /** The whole script over an output directory holding outDir. */
  function ProcessAll(inputFile: string, format: string, post: Service, rows: seq<map<string, string>>,
                      outDir: map<string, Json>): RunResult
  {
    if InputKind(inputFile).None? then RunResult(outDir, Some(BadInputPath))
    else RunFrom(format, post, rows, 0, outDir)
  }

  /** The body of the row loop: pops TEXT from the row, stores what is left
      as the `metadata` parameter, sends the request and picks the output and
      the file name. */
  method HandleRow(format: string, post: Service, params0: map<string, ParamValue>, row0: map<string, string>)
    returns (params: map<string, ParamValue>, effect: RowEffect)
    requires params0 - {"metadata"} == InitialParams(format)
    ensures params - {"metadata"} == InitialParams(format)
    ensures "TEXT" in row0 ==> params == RequestParams(format, row0 - {"TEXT"})
    ensures effect == RowEffectOf(format, post, row0)
  {
    params := params0;
    var row := row0;
    if "TEXT" !in row {
      return params, Failed(MissingColumn("TEXT"));
    }
    var text := row["TEXT"];
    row := row - {"TEXT"};
    params := params["metadata" := PDict(row)];
    assert params == RequestParams(format, row);
    var r := post(text, params);
    if r.None? {
      return params, Failed(BadResponse);
    }
    var output := r.value;
    if format == FormatJson {
      if !output.JObject? || "_views" !in output.fields {
        return params, Failed(BadResponse);
      }
      var views := output.fields["_views"];
      if !views.JObject? || "_InitialView" !in views.fields {
        return params, Failed(BadResponse);
      }
      output := views.fields["_InitialView"];
    }
    if format == FormatFhir {
      return params, Failed(NotImplemented);
    }
    if format == FormatJson || format == FormatXmi || format == FormatJsonLite || format == FormatFhir {
      if "ROW_ID" !in row {
        return params, Failed(MissingColumn("ROW_ID"));
      }
      effect := WriteFile(row["ROW_ID"] + "." + Extension(format).value, output);
    } else {
      effect := NoFile;
    }
  }

  /** `main`: the suffix check, the parameters, and the row loop, which
      writes each answer and ends at the first exception. */
  method Process(inputFile: string, format: string, post: Service, rows: seq<map<string, string>>,
                 outDir: map<string, Json>) returns (files: map<string, Json>, failure: Option<Failure>)
    ensures RunResult(files, failure) == ProcessAll(inputFile, format, post, rows, outDir)
  {
    files := outDir;
    if !EndsWith(inputFile, ".csv.gz") && !EndsWith(inputFile, ".csv") {
      return files, Some(BadInputPath);
    }
    var params: map<string, ParamValue> := map[];
    if format == FormatJson {
      params := params["format" := PString("full")];
    } else if format == FormatXmi {
      params := params["format" := PString("xmi")];
    }
    assert params - {"metadata"} == InitialParams(format);
    var i := 0;
    while i < |rows|
      invariant i <= |rows|
      invariant params - {"metadata"} == InitialParams(format)
      invariant RunFrom(format, post, rows, i, files) == RunFrom(format, post, rows, 0, outDir)
    {
      var effect;
      params, effect := HandleRow(format, post, params, rows[i]);
      if effect.Failed? {
        return files, Some(effect.failure);
      }
      if effect.WriteFile? {
        files := files[effect.name := effect.output];
      }
      i := i + 1;
    }
    failure := None;
  }

  /** With fhir output the run ends at its first row without writing
      anything. */
  lemma {:induction false} FhirWritesNothing(post: Service, rows: seq<map<string, string>>, files: map<string, Json>)
    requires |rows| > 0
    ensures RunFrom(FormatFhir, post, rows, 0, files).files == files
    ensures RunFrom(FormatFhir, post, rows, 0, files).failure.Some?
  {
  }

  /** A format outside the table writes no file, whatever the rows. */
  lemma {:induction false} UnknownFormatWritesNothing(format: string, post: Service, rows: seq<map<string, string>>,
                                                      i: nat, files: map<string, Json>)
    requires !KnownFormat(format) && i <= |rows|
    ensures RunFrom(format, post, rows, i, files).files == files
    decreases |rows| - i
  {
    if i < |rows| {
      UnknownFormatWritesNothing(format, post, rows, i + 1, files);
    }
  }

  /** Every file the run adds is `<ROW_ID>.<extension>` for one of its rows. */
  lemma {:induction false} WrittenNames(format: string, post: Service, rows: seq<map<string, string>>, i: nat,
                                        files: map<string, Json>)
    requires i <= |rows|
    ensures forall name :: name in RunFrom(format, post, rows, i, files).files ==>
              name in files || exists j :: i <= j < |rows| && "ROW_ID" in rows[j]
                                           && Some(name) == OutputFileName(rows[j]["ROW_ID"], format)
    decreases |rows| - i
  {
    if i < |rows| {
      match RowEffectOf(format, post, rows[i])
      case Failed(_) =>
      case NoFile => WrittenNames(format, post, rows, i + 1, files);
      case WriteFile(name, output) =>
        assert "ROW_ID" in rows[i];
        WrittenNames(format, post, rows, i + 1, files[name := output]);
    }
  }

  /** A run that ends without an exception in json, xmi or json-lite has
      written a file for every row. */
  lemma {:induction false} CleanRunWritesEveryRow(format: string, post: Service, rows: seq<map<string, string>>,
                                                  i: nat, files: map<string, Json>)
    requires KnownFormat(format) && format != FormatFhir && i <= |rows|
    requires RunFrom(format, post, rows, i, files).failure.None?
    ensures forall j :: i <= j < |rows| ==>
              "ROW_ID" in rows[j] && OutputFileName(rows[j]["ROW_ID"], format).value in RunFrom(format, post, rows, i, files).files
    decreases |rows| - i
  {
    if i < |rows| {
      match RowEffectOf(format, post, rows[i])
      case WriteFile(name, output) =>
        var files' := files[name := output];
        CleanRunWritesEveryRow(format, post, rows, i + 1, files');
        WrittenStays(format, post, rows, i + 1, files', name);
    }
  }

  /** A file once written stays in the directory (later rows may only
      rewrite it). */
  lemma {:induction false} WrittenStays(format: string, post: Service, rows: seq<map<string, string>>, i: nat,
                                        files: map<string, Json>, name: string)
    requires i <= |rows| && name in files
    ensures name in RunFrom(format, post, rows, i, files).files
    decreases |rows| - i
  {
    if i < |rows| {
      match RowEffectOf(format, post, rows[i])
      case Failed(_) =>
      case NoFile => WrittenStays(format, post, rows, i + 1, files, name);
      case WriteFile(n, output) => WrittenStays(format, post, rows, i + 1, files[n := output], name);
    }
  }
}
