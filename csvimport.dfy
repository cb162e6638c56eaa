/** csvimport.py: format resolution, row projection, key-based duplicate removal and the
    decisions of the command-line entry point that tie them together. */
module CsvImport {
  import opened Wrappers
  import opened Strings
  import opened Sequences

  /** One CSV row: column name to value; every value is a string. */
  type Record = map<string, string>

  /** An ordered list of column names. */
  type Format = seq<string>

  /** The values of a row at the key columns, in key-column order (a Python tuple). */
  type Key = seq<string>

  /** One organization's section of the configuration; absent or null entries are None. */
  datatype OrgConfig = OrgConfig(
    inputFormat: Option<Format>,
    outputFormat: Option<Format>,
    keyFields: Option<seq<string>>,
    sheetName: Option<string>,
    extraColumns: seq<string>)

  /** The `{}` that stands for a missing organization section. */
  const NoOrgConfig := OrgConfig(None, None, None, None, [])

  /** The configuration file: the `organizations` mapping and the `google` section
      (a key whose value is null maps to None). */
  datatype Config = Config(organizations: map<string, OrgConfig>, google: map<string, Option<string>>)

  /** Which of the two format entries of an organization is asked for. */
  datatype FormatKey = InputFormatKey | OutputFormatKey

  /** The command-line flags that the reconciliation uses. */
  datatype Args = Args(
    inputFiles: string,
    output: Option<string>,
    inputFormat: Option<string>,
    outputFormat: Option<string>,
    org: Option<string>,
    existingCsv: Option<string>,
    existingSheetId: Option<string>,
    existingSheetName: Option<string>,
    sheetName: Option<string>,
    googleCreds: Option<string>,
    keyColumns: Option<string>)

  /** Failures that end the run with a Python exception rather than an exit code. */
  datatype ImportError =
    | FormatParseError(message: string)  // the YAML loader rejected a bracketed format
    | FileNotFound(path: string)         // an input or existing-entries CSV is missing
    | FieldNotInHeader                   // csv.DictWriter refused a row with an unknown column

  /** Python truthiness of an optional list: None and [] are false. */
  predicate TruthyList<T>(l: Option<seq<T>>) {
    l.Some? && l.value != []
  }

  // ---------------------------------------------------------------------------
  // Format resolution
  // ---------------------------------------------------------------------------

  /** `[c.strip() for c in s.split(",")]`: cut at every comma, then strip each piece. */
  function CommaList(s: string): (cols: seq<string>)
    ensures |cols| >= 1
    ensures forall i :: 0 <= i < |cols| ==> IsStripped(cols[i]) && ',' !in cols[i]
    ensures exists pieces :: CommaPieces(s, pieces) && cols == StripAll(pieces)
  {
    var pieces := Split(s, ',');
    var cols := StripAll(pieces);
    forall i | 0 <= i < |cols| ensures ',' !in cols[i] {
      assert pieces[i] in pieces;
      var j :| StripsTo(pieces[i], cols[i], j);
      assert forall c :: c in cols[i] ==> c in pieces[i];
    }
    assert CommaPieces(s, pieces);
    cols
  }

  /** `pieces` are the comma-free pieces that `s` is made of, joined by commas. */
  ghost predicate CommaPieces(s: string, pieces: seq<string>) {
    |pieces| >= 1 && Join(pieces, ",") == s && forall p :: p in pieces ==> ',' !in p
  }

  /** Column names written comma-separated, without surrounding whitespace, parse back. */
  lemma CommaListJoin(cols: seq<string>)
    requires |cols| >= 1
    requires forall i :: 0 <= i < |cols| ==> IsStripped(cols[i]) && ',' !in cols[i]
    ensures CommaList(Join(cols, ",")) == cols
  {
    forall p | p in cols ensures ',' !in p {
      var i :| 0 <= i < |cols| && cols[i] == p;
    }
    SplitJoin(cols, ',');
    forall i | 0 <= i < |cols| ensures Strip(cols[i]) == cols[i] {
      StripOfStripped(cols[i]);
    }
  }

  /** The loader for a format string that starts with '[' (`yaml.safe_load`). */
  type YamlLoader = string -> Result<Format, string>

  /** `parse_format`: None for a missing or empty string, the YAML loader's list for a
      bracketed string, otherwise the comma-separated list. */
  function ParseFormat(formatStr: Option<string>, yaml: YamlLoader): (r: Result<Option<Format>, string>)
    ensures r == Success(None) <==> !Truthy(formatStr)
    ensures r.Failure? ==> Truthy(formatStr) && formatStr.value[0] == '['
    ensures Truthy(formatStr) && formatStr.value[0] != '[' ==> r == Success(Some(CommaList(formatStr.value)))
    ensures Truthy(formatStr) && formatStr.value[0] == '[' ==>
              r == (match yaml(formatStr.value)
                    case Success(cols) => Success(Some(cols))
                    case Failure(e) => Failure(e))
  {
    if !Truthy(formatStr) then Success(None)
    else
      var s := formatStr.value;
      if s[0] == '[' then
        match yaml(s)
        case Success(cols) => Success(Some(cols))
        case Failure(e) => Failure(e)
      else Success(Some(CommaList(s)))
  }

  /** A comma list of the columns A, B and C (test_csvimport.py). */
  lemma ParseFormatCommaExample(yaml: YamlLoader)
    ensures ParseFormat(Some("A,B,C"), yaml) == Success(Some(["A", "B", "C"]))
  {
    var cols := ["A", "B", "C"];
    assert Join(cols[2..], ",") == "C";
    assert Join(cols[1..], ",") == "B,C";
    assert Join(cols, ",") == "A,B,C";
    assert forall i :: 0 <= i < |cols| ==> IsStripped(cols[i]) && ',' !in cols[i];
    CommaListJoin(cols);
  }

  /** An empty format string means "no format" (test_edge_cases.py). */
  lemma ParseFormatEmptyExample(yaml: YamlLoader)
    ensures ParseFormat(Some(""), yaml) == Success(None)
    ensures ParseFormat(None, yaml) == Success(None)
  {
  }

  function OrgEntry(c: OrgConfig, key: FormatKey): Option<Format> {
    match key
    case InputFormatKey => c.inputFormat
    case OutputFormatKey => c.outputFormat
  }

  /** `get_format`: a non-empty CLI format wins; otherwise the organization's non-empty
      configuration entry; otherwise None. The result is never an empty list. */
  function GetFormat(config: Config, org: Option<string>, key: FormatKey, cliFormat: Option<Format>): (r: Option<Format>)
    ensures TruthyList(cliFormat) ==> r == cliFormat
    ensures !TruthyList(cliFormat) ==>
              (r.Some? <==> Truthy(org) && org.value in config.organizations
                            && TruthyList(OrgEntry(config.organizations[org.value], key)))
    ensures !TruthyList(cliFormat) && r.Some? ==> r == OrgEntry(config.organizations[org.value], key)
    ensures r.Some? ==> r.value != []
  {
    if TruthyList(cliFormat) then cliFormat
    else if Truthy(org) && org.value in config.organizations
            && TruthyList(OrgEntry(config.organizations[org.value], key)) then
      OrgEntry(config.organizations[org.value], key)
    else None
  }

  /** `get_param`: a non-empty CLI value wins; then the config dictionary's entry for the key,
      even a null one; then the environment variable, if set. */
  function GetParam(cli: Option<string>, dict: map<string, Option<string>>, key: string,
                    env: map<string, string>, envVar: string): (r: Option<string>)
    ensures Truthy(cli) ==> r == cli
    ensures !Truthy(cli) && key in dict ==> r == dict[key]
    ensures !Truthy(cli) && key !in dict ==> (r.Some? <==> envVar in env)
    ensures !Truthy(cli) && key !in dict && r.Some? ==> r.value == env[envVar]
  {
    if Truthy(cli) then cli
    else if key in dict then dict[key]
    else if envVar in env then Some(env[envVar])
    else None
  }

  /** `config['organizations'][org]` when the organization is named and listed, else `{}`. */
  function OrgConfigOf(config: Config, org: Option<string>): (r: OrgConfig)
    ensures Truthy(org) && org.value in config.organizations ==> r == config.organizations[org.value]
    ensures !(Truthy(org) && org.value in config.organizations) ==>
              && r.inputFormat.None? && r.outputFormat.None? && r.keyFields.None? && r.sheetName.None?
              && r.extraColumns == []
  {
    if Truthy(org) && org.value in config.organizations then config.organizations[org.value]
    else NoOrgConfig
  }

  /** The worksheet name: `--sheet-name`, then the organization's `sheet_name`, then
      `get_param(--existing-sheet-name, google, 'sheet_name', GOOGLE_SHEET_NAME)`. */
  function SheetName(args: Args, config: Config, env: map<string, string>): (r: Option<string>)
    ensures Truthy(args.sheetName) ==> r == args.sheetName
    ensures !Truthy(args.sheetName) && Truthy(OrgConfigOf(config, args.org).sheetName) ==>
              r == OrgConfigOf(config, args.org).sheetName
    ensures !Truthy(args.sheetName) && !Truthy(OrgConfigOf(config, args.org).sheetName) ==>
              r == GetParam(args.existingSheetName, config.google, "sheet_name", env, "GOOGLE_SHEET_NAME")
  {
    var orgName := OrgConfigOf(config, args.org).sheetName;
    if Truthy(args.sheetName) then args.sheetName
    else if Truthy(orgName) then orgName
    else GetParam(args.existingSheetName, config.google, "sheet_name", env, "GOOGLE_SHEET_NAME")
  }

  /** The spreadsheet id: `--existing-sheet-id`, then the `google` section's `sheet_id`,
      then the GOOGLE_SHEET_ID environment variable. */
  function SheetId(args: Args, config: Config, env: map<string, string>): (r: Option<string>)
    ensures Truthy(args.existingSheetId) ==> r == args.existingSheetId
    ensures !Truthy(args.existingSheetId) && "sheet_id" in config.google ==> r == config.google["sheet_id"]
    ensures !Truthy(args.existingSheetId) && "sheet_id" !in config.google ==>
              r == (if "GOOGLE_SHEET_ID" in env then Some(env["GOOGLE_SHEET_ID"]) else None)
  {
    GetParam(args.existingSheetId, config.google, "sheet_id", env, "GOOGLE_SHEET_ID")
  }

  /** The credentials file: `--google-creds`, then the `google` section's `creds`, then the
      GOOGLE_CREDS environment variable. */
  function CredsPath(args: Args, config: Config, env: map<string, string>): (r: Option<string>)
    ensures Truthy(args.googleCreds) ==> r == args.googleCreds
    ensures !Truthy(args.googleCreds) && "creds" in config.google ==> r == config.google["creds"]
    ensures !Truthy(args.googleCreds) && "creds" !in config.google ==>
              r == (if "GOOGLE_CREDS" in env then Some(env["GOOGLE_CREDS"]) else None)
  {
    GetParam(args.googleCreds, config.google, "creds", env, "GOOGLE_CREDS")
  }

  /** The key columns: the stripped comma list of `--key-columns` when it is non-empty,
      else the organization's stripped `key_fields` when non-empty, else None.
      A resolved list is never empty. */
  function KeyColumns(cli: Option<string>, org: OrgConfig): (r: Option<seq<string>>)
    ensures r.Some? ==> r.value != []
    ensures Truthy(cli) ==> r == Some(CommaList(cli.value))
    ensures !Truthy(cli) ==> (r.Some? <==> TruthyList(org.keyFields))
    ensures !Truthy(cli) && r.Some? ==> r.value == StripAll(org.keyFields.value)
  {
    if Truthy(cli) then Some(CommaList(cli.value))
    else if TruthyList(org.keyFields) then Some(StripAll(org.keyFields.value))
    else None
  }

  // ---------------------------------------------------------------------------
  // Row projection
  // ---------------------------------------------------------------------------

  /** `row.get(col, "")` */
  function Get(row: Record, col: string): string {
    if col in row then row[col] else ""
  }

  /** `{col: row.get(col, "") for col in fmt}`: exactly the format's columns, each holding
      the source value, or "" when the source lacks the column. */
  function Project(row: Record, fmt: Format): (r: Record)
    ensures r.Keys == set c | c in fmt
    ensures forall c :: c in fmt ==> r[c] == Get(row, c)
  {
    map c | c in fmt :: Get(row, c)
  }

  /** Projecting a projected row onto the same format changes nothing. */
  lemma ProjectIdempotent(row: Record, fmt: Format)
    ensures Project(Project(row, fmt), fmt) == Project(row, fmt)
  {
  }

  /** Projection through an intermediate format that covers all of the row's columns is
      the same as projecting directly. */
  lemma ProjectThrough(row: Record, via: Format, fmt: Format)
    requires forall c :: c in row ==> c in via
    ensures Project(Project(row, via), fmt) == Project(row, fmt)
  {
  }

  function Projected(rows: seq<Record>, fmt: Format): (r: seq<Record>)
    ensures |r| == |rows|
    ensures forall i :: 0 <= i < |rows| ==> r[i] == Project(rows[i], fmt)
  {
    seq(|rows|, i requires 0 <= i < |rows| => Project(rows[i], fmt))
  }

  /** `[row.get(col, '') for col in fmt]`: the row's values in format order. */
  function RowValues(row: Record, fmt: Format): (r: seq<string>)
    ensures |r| == |fmt|
    ensures forall i :: 0 <= i < |fmt| ==> r[i] == Get(row, fmt[i])
  {
    seq(|fmt|, i requires 0 <= i < |fmt| => Get(row, fmt[i]))
  }

  /** A spreadsheet row: the format's values followed by the literal extra columns. */
  function RemoteRow(row: Record, fmt: Format, extra: seq<string>): (r: seq<string>)
    ensures |r| == |fmt| + |extra|
    ensures r[..|fmt|] == RowValues(row, fmt) && r[|fmt|..] == extra
  {
    RowValues(row, fmt) + extra
  }

  /** Projecting a row before building its spreadsheet row makes no difference. */
  lemma RemoteRowOfProjection(row: Record, fmt: Format, extra: seq<string>)
    ensures RemoteRow(Project(row, fmt), fmt, extra) == RemoteRow(row, fmt, extra)
  {
    assert RowValues(Project(row, fmt), fmt) == RowValues(row, fmt);
  }

  function RemoteRows(rows: seq<Record>, fmt: Format, extra: seq<string>): (r: seq<seq<string>>)
    ensures |r| == |rows|
    ensures forall i :: 0 <= i < |rows| ==> r[i] == RemoteRow(rows[i], fmt, extra)
  {
    seq(|rows|, i requires 0 <= i < |rows| => RemoteRow(rows[i], fmt, extra))
  }

  /** The loop that builds `rows_to_insert`: one spreadsheet row per row, in order. */
  method RowsToInsert(rows: seq<Record>, fmt: Format, extra: seq<string>) returns (out: seq<seq<string>>)
    ensures out == RemoteRows(rows, fmt, extra)
    ensures forall i :: 0 <= i < |out| ==> |out[i]| == |fmt| + |extra|
  {
    out := [];
    for i := 0 to |rows|
      invariant |out| == i
      invariant forall k :: 0 <= k < i ==> out[k] == RemoteRow(rows[k], fmt, extra)
    {
      var baseRow := RowValues(rows[i], fmt);
      out := out + [baseRow + extra];
    }
  }

  // ---------------------------------------------------------------------------
  // Duplicate removal
  // ---------------------------------------------------------------------------

  /** `tuple(str(row.get(col, "")) for col in keyColumns)`: the model holds every value, the
      spreadsheet's included, as the text `str()` gives for it, so the key is the row's values
      at the key columns. */
  function KeyOf(row: Record, keyColumns: seq<string>): Key {
    RowValues(row, keyColumns)
  }

  /** The set of keys of the existing entries. */
  function KeySet(entries: seq<Record>, keyColumns: seq<string>): (ks: set<Key>)
    ensures forall k :: k in ks <==> exists j :: 0 <= j < |entries| && KeyOf(entries[j], keyColumns) == k
    decreases |entries|
  {
    if entries == [] then {}
    else
      var init := entries[..|entries| - 1];
      var ks := KeySet(init, keyColumns) + {KeyOf(entries[|entries| - 1], keyColumns)};
      assert forall j :: 0 <= j < |init| ==> init[j] == entries[j];
      ks
  }

  function IsNewRow(known: set<Key>, keyColumns: seq<string>): Record -> bool {
    row => KeyOf(row, keyColumns) !in known
  }

  function IsKnownRow(known: set<Key>, keyColumns: seq<string>): Record -> bool {
    row => KeyOf(row, keyColumns) in known
  }

  /** What `remove_duplicates` returns: the rows, in order, whose key is not the key of any
      existing entry. */
  function Deduplicated(rows: seq<Record>, existing: seq<Record>, keyColumns: seq<string>): seq<Record> {
    Filter(IsNewRow(KeySet(existing, keyColumns), keyColumns), rows)
  }

  /** The rows that `remove_duplicates` drops. */
  function Duplicates(rows: seq<Record>, existing: seq<Record>, keyColumns: seq<string>): seq<Record> {
    Filter(IsKnownRow(KeySet(existing, keyColumns), keyColumns), rows)
  }

  /** `remove_duplicates`: collect the existing keys in a set, then keep, in order, each row
      whose key is not in it. */
  method RemoveDuplicates(rows: seq<Record>, existing: seq<Record>, keyColumns: seq<string>)
    returns (result: seq<Record>)
    ensures result == Deduplicated(rows, existing, keyColumns)
  {
    var existingKeys: set<Key> := {};
    for i := 0 to |existing|
      invariant existingKeys == KeySet(existing[..i], keyColumns)
    {
      assert existing[..i + 1][..i] == existing[..i];
      existingKeys := existingKeys + {KeyOf(existing[i], keyColumns)};
    }
    assert existing[..|existing|] == existing;
    var keep := IsNewRow(existingKeys, keyColumns);
    result := [];
    for i := 0 to |rows|
      invariant result == Filter(keep, rows[..i])
    {
      assert rows[..i + 1][..i] == rows[..i];
      var key := KeyOf(rows[i], keyColumns);
      if key !in existingKeys {
        result := result + [rows[i]];
      }
    }
    assert rows[..|rows|] == rows;
  }

  /** A row is kept exactly when it is one of the rows and no existing entry has its key. */
  lemma DedupKeepsExactlyNewRows(rows: seq<Record>, existing: seq<Record>, keyColumns: seq<string>)
    ensures forall r :: r in Deduplicated(rows, existing, keyColumns) <==>
              r in rows && forall j :: 0 <= j < |existing| ==> KeyOf(existing[j], keyColumns) != KeyOf(r, keyColumns)
  {
    FilterMembers(IsNewRow(KeySet(existing, keyColumns), keyColumns), rows);
  }

  /** The kept rows are a subsequence of the input, in their original relative order. */
  lemma DedupPreservesOrder(rows: seq<Record>, existing: seq<Record>, keyColumns: seq<string>)
    ensures IsSubsequence(Deduplicated(rows, existing, keyColumns), rows)
  {
    FilterIsSubsequence(IsNewRow(KeySet(existing, keyColumns), keyColumns), rows);
  }

  /** With no existing entries nothing is removed. */
  lemma DedupWithoutExisting(rows: seq<Record>, keyColumns: seq<string>)
    ensures Deduplicated(rows, [], keyColumns) == rows
  {
    FilterKeepsAll(IsNewRow(KeySet([], keyColumns), keyColumns), rows);
  }

  /** When every row's key is the key of some existing entry, nothing is kept. */
  lemma DedupAllKnown(rows: seq<Record>, existing: seq<Record>, keyColumns: seq<string>)
    requires forall i :: 0 <= i < |rows| ==>
               exists j :: 0 <= j < |existing| && KeyOf(existing[j], keyColumns) == KeyOf(rows[i], keyColumns)
    ensures Deduplicated(rows, existing, keyColumns) == []
  {
    FilterDropsAll(IsNewRow(KeySet(existing, keyColumns), keyColumns), rows);
  }

  /** Removing duplicates a second time against the same entries removes nothing more. */
  lemma DedupIdempotent(rows: seq<Record>, existing: seq<Record>, keyColumns: seq<string>)
    ensures Deduplicated(Deduplicated(rows, existing, keyColumns), existing, keyColumns)
            == Deduplicated(rows, existing, keyColumns)
  {
    FilterIdempotent(IsNewRow(KeySet(existing, keyColumns), keyColumns), rows);
  }

  /** The logged count `len(rows) - len(result)` is the number of rows whose key is known. */
  lemma DedupRemovedCount(rows: seq<Record>, existing: seq<Record>, keyColumns: seq<string>)
    ensures |rows| - |Deduplicated(rows, existing, keyColumns)| == |Duplicates(rows, existing, keyColumns)|
    ensures forall r :: r in Duplicates(rows, existing, keyColumns) ==>
              r in rows && exists j :: 0 <= j < |existing| && KeyOf(existing[j], keyColumns) == KeyOf(r, keyColumns)
  {
    var ks := KeySet(existing, keyColumns);
    FilterComplement(IsNewRow(ks, keyColumns), IsKnownRow(ks, keyColumns), rows);
    FilterMembers(IsKnownRow(ks, keyColumns), rows);
  }

  /** As written, an empty key list gives every row the key `()`, which every existing entry
      also has: with any existing entry at all, every row is removed. */
  lemma DedupEmptyKeyColumns(rows: seq<Record>, existing: seq<Record>)
    requires existing != []
    ensures Deduplicated(rows, existing, []) == []
  {
    var known := KeySet(existing, []);
    assert KeyOf(existing[0], []) == [];
    assert [] in known;
    forall i | 0 <= i < |rows| ensures !IsNewRow(known, [])(rows[i]) {
      assert KeyOf(rows[i], []) == [];
    }
    FilterDropsAll(IsNewRow(known, []), rows);
  }

  /** test_remove_duplicates_basic: the first and third rows match the existing entry. */
  lemma DedupBasicExample()
    ensures Deduplicated([map["A" := "1", "B" := "x"], map["A" := "2", "B" := "y"], map["A" := "1", "B" := "x"]],
                         [map["A" := "1", "B" := "x"]], ["A", "B"])
            == [map["A" := "2", "B" := "y"]]
  {
    var r1, r2 := map["A" := "1", "B" := "x"], map["A" := "2", "B" := "y"];
    var rows, existing, keys := [r1, r2, r1], [r1], ["A", "B"];
    var ks := KeySet(existing, keys);
    assert KeyOf(r1, keys) == ["1", "x"];
    assert KeyOf(r2, keys) == ["2", "y"];
    assert ks == {["1", "x"]};
    var p := IsNewRow(ks, keys);
    assert rows[..2] == [r1, r2] && rows[..2][..1] == [r1] && [r1][..0] == [];
    assert Filter(p, [r1]) == [];
    assert Filter(p, [r1, r2]) == [r2];
  }

  /** test_remove_duplicates_all_duplicates: every row matches, so the result is empty. */
  lemma DedupAllDuplicatesExample()
    ensures Deduplicated([map["A" := "1"], map["A" := "1"]], [map["A" := "1"]], ["A"]) == []
  {
    var r := map["A" := "1"];
    var rows, keys := [r, r], ["A"];
    assert KeyOf(r, keys) == ["1"];
    assert KeySet([r], keys) == {["1"]};
    var p := IsNewRow({["1"]}, keys);
    assert rows[..1] == [r] && [r][..0] == [];
    assert Filter(p, [r]) == [];
  }

  /** The guard of both callers (csvimport.py lines 146 and 261): duplicates are removed
      exactly when there are existing entries and key columns; otherwise the rows pass
      through; either way the result keeps the rows' order. */
  function DedupGuard(rows: seq<Record>, existing: Option<seq<Record>>, keyColumns: Option<seq<string>>): (r: seq<Record>)
    ensures TruthyList(existing) && TruthyList(keyColumns) ==> r == Deduplicated(rows, existing.value, keyColumns.value)
    ensures !TruthyList(keyColumns) || !TruthyList(existing) ==> r == rows
    ensures IsSubsequence(r, rows)
  {
    if TruthyList(existing) && TruthyList(keyColumns) then
      DedupPreservesOrder(rows, existing.value, keyColumns.value);
      Deduplicated(rows, existing.value, keyColumns.value)
    else
      FilterKeepsAll((r: Record) => true, rows);
      FilterIsSubsequence((r: Record) => true, rows);
      rows
  }

  /** `transform_csv` on already-read rows: project every row onto the output format, then
      remove duplicates when existing entries, key columns and a logger are all given. */
  method TransformCsv(rows: seq<Record>, outputFormat: Format, existing: Option<seq<Record>>,
                      keyColumns: Option<seq<string>>, hasLogger: bool) returns (result: seq<Record>)
    ensures hasLogger ==> result == DedupGuard(Projected(rows, outputFormat), existing, keyColumns)
    ensures !hasLogger ==> result == Projected(rows, outputFormat)
  {
    var transformed: seq<Record> := [];
    for i := 0 to |rows|
      invariant |transformed| == i
      invariant forall k :: 0 <= k < i ==> transformed[k] == Project(rows[k], outputFormat)
    {
      var newRow := Project(rows[i], outputFormat);
      transformed := transformed + [newRow];
    }
    assert transformed == Projected(rows, outputFormat);
    result := transformed;
    if TruthyList(existing) && TruthyList(keyColumns) && hasLogger {
      result := RemoveDuplicates(transformed, existing.value, keyColumns.value);
    }
  }

  // ---------------------------------------------------------------------------
  // The command-line entry point
  // ---------------------------------------------------------------------------

  /** Writing the merged rows to a temporary CSV with the input format as header and reading
      it back: `csv.DictWriter` raises on a column outside the header and fills missing ones
      with "", so what comes back is each row projected onto the input format. */
  function ThroughTempFile(rows: seq<Record>, inputFormat: Format): (r: Result<seq<Record>, ImportError>)
    ensures r.Failure? <==> exists i, c :: 0 <= i < |rows| && c in rows[i] && c !in inputFormat
    ensures r.Success? ==> r.value == Projected(rows, inputFormat)
    ensures r.Failure? ==> r.error == FieldNotInHeader
  {
    if exists i :: 0 <= i < |rows| && !(forall c :: c in rows[i] ==> c in inputFormat) then Failure(FieldNotInHeader)
    else Success(Projected(rows, inputFormat))
  }

  /** The temporary file does not change what the output-format projection sees. */
  lemma TempFileTransparent(rows: seq<Record>, inputFormat: Format, outputFormat: Format)
    requires ThroughTempFile(rows, inputFormat).Success?
    ensures Projected(ThroughTempFile(rows, inputFormat).value, outputFormat) == Projected(rows, outputFormat)
  {
    forall i | 0 <= i < |rows|
      ensures Project(Project(rows[i], inputFormat), outputFormat) == Project(rows[i], outputFormat)
    {
      ProjectThrough(rows[i], inputFormat, outputFormat);
    }
  }

  /** The transform-and-deduplicate step of `main` on the merged input rows: with equal
      formats the raw rows are deduplicated; otherwise they go through the temporary file and
      `transform_csv`. */
  function Reconcile(inputFormat: Format, outputFormat: Format, merged: seq<Record>,
                     existing: Option<seq<Record>>, keyColumns: Option<seq<string>>): (r: Result<seq<Record>, ImportError>)
    ensures r.Failure? ==> r.error == FieldNotInHeader
  {
    if inputFormat == outputFormat then Success(DedupGuard(merged, existing, keyColumns))
    else
      match ThroughTempFile(merged, inputFormat)
      case Failure(e) => Failure(e)
      case Success(tmp) => Success(DedupGuard(Projected(tmp, outputFormat), existing, keyColumns))
  }

  /** What the reconciliation produces: with equal formats, the guarded deduplication of the
      raw input; with different formats, the guarded deduplication of the input projected onto
      the output format when the temporary file accepts it, and its refusal otherwise. Hence
      rows carrying exactly the output columns, a subsequence of the (projected) input, and the
      whole input when there is nothing to deduplicate against. */
  lemma ReconcileResult(inputFormat: Format, outputFormat: Format, merged: seq<Record>,
                        existing: Option<seq<Record>>, keyColumns: Option<seq<string>>)
    ensures inputFormat == outputFormat ==>
              && Reconcile(inputFormat, outputFormat, merged, existing, keyColumns).Success?
              && IsSubsequence(Reconcile(inputFormat, outputFormat, merged, existing, keyColumns).value, merged)
    ensures inputFormat != outputFormat && Reconcile(inputFormat, outputFormat, merged, existing, keyColumns).Success? ==>
              IsSubsequence(Reconcile(inputFormat, outputFormat, merged, existing, keyColumns).value,
                            Projected(merged, outputFormat))
    ensures inputFormat != outputFormat && Reconcile(inputFormat, outputFormat, merged, existing, keyColumns).Success? ==>
              forall r :: r in Reconcile(inputFormat, outputFormat, merged, existing, keyColumns).value ==>
                r.Keys == set c | c in outputFormat
    ensures !(TruthyList(existing) && TruthyList(keyColumns)) && inputFormat != outputFormat &&
            Reconcile(inputFormat, outputFormat, merged, existing, keyColumns).Success? ==>
              Reconcile(inputFormat, outputFormat, merged, existing, keyColumns).value == Projected(merged, outputFormat)
    ensures inputFormat == outputFormat ==>
              Reconcile(inputFormat, outputFormat, merged, existing, keyColumns) == Success(DedupGuard(merged, existing, keyColumns))
    ensures inputFormat != outputFormat && ThroughTempFile(merged, inputFormat).Success? ==>
              Reconcile(inputFormat, outputFormat, merged, existing, keyColumns)
              == Success(DedupGuard(Projected(merged, outputFormat), existing, keyColumns))
    ensures inputFormat != outputFormat && ThroughTempFile(merged, inputFormat).Failure? ==>
              Reconcile(inputFormat, outputFormat, merged, existing, keyColumns) == Failure(FieldNotInHeader)
  {
    if inputFormat != outputFormat && ThroughTempFile(merged, inputFormat).Success? {
      var tmp := ThroughTempFile(merged, inputFormat).value;
      TempFileTransparent(merged, inputFormat, outputFormat);
      var projected := Projected(tmp, outputFormat);
      var out := DedupGuard(projected, existing, keyColumns);
      if TruthyList(existing) && TruthyList(keyColumns) {
        FilterMembers(IsNewRow(KeySet(existing.value, keyColumns.value), keyColumns.value), projected);
      }
      forall r | r in out ensures r.Keys == set c | c in outputFormat {
        assert r in projected;
      }
    }
  }

  /** Where the existing entries come from, once key columns are known: `--existing-csv`,
      else the spreadsheet when its id, worksheet and credentials are all set, else nowhere.
      `sheetFetch` is what fetching the spreadsheet gives (None: it failed). */
  datatype ExistingOutcome = Entries(entries: Option<seq<Record>>) | FetchFailed | ReadFailed(path: string)

  function ExistingEntries(args: Args, keyColumns: Option<seq<string>>, sheetId: Option<string>,
                           sheetName: Option<string>, creds: Option<string>,
                           disk: map<string, seq<Record>>, sheetFetch: Option<seq<Record>>): (r: ExistingOutcome)
    ensures !TruthyList(keyColumns) ==> r == Entries(None)
    ensures r == FetchFailed <==>
              TruthyList(keyColumns) && !Truthy(args.existingCsv)
              && Truthy(sheetId) && Truthy(sheetName) && Truthy(creds) && sheetFetch.None?
    ensures TruthyList(keyColumns) && Truthy(args.existingCsv) ==>
              r == (if args.existingCsv.value in disk then Entries(Some(disk[args.existingCsv.value]))
                    else ReadFailed(args.existingCsv.value))
    ensures TruthyList(keyColumns) && !Truthy(args.existingCsv)
            && Truthy(sheetId) && Truthy(sheetName) && Truthy(creds) && sheetFetch.Some? ==>
              r == Entries(sheetFetch)
    ensures TruthyList(keyColumns) && !Truthy(args.existingCsv)
            && !(Truthy(sheetId) && Truthy(sheetName) && Truthy(creds)) ==>
              r == Entries(None)
  {
    if !TruthyList(keyColumns) then Entries(None)
    else if Truthy(args.existingCsv) then
      var path := args.existingCsv.value;
      if path in disk then Entries(Some(disk[path])) else ReadFailed(path)
    else if Truthy(sheetId) && Truthy(sheetName) && Truthy(creds) then
      match sheetFetch
      case Some(rows) => Entries(Some(rows))
      case None => FetchFailed
    else Entries(None)
  }

  /** Reading every input file, in command-line order; a missing file raises. */
  function ReadInputs(paths: seq<string>, disk: map<string, seq<Record>>): (r: Result<seq<seq<Record>>, ImportError>)
    ensures r.Success? ==> |r.value| == |paths| && forall i :: 0 <= i < |paths| ==> paths[i] in disk && r.value[i] == disk[paths[i]]
    ensures r.Failure? ==> r.error.FileNotFound? && r.error.path in paths && r.error.path !in disk
    decreases |paths|
  {
    if paths == [] then Success([])
    else
      match ReadInputs(paths[..|paths| - 1], disk)
      case Failure(e) => Failure(e)
      case Success(prefix) =>
        var last := paths[|paths| - 1];
        if last in disk then Success(prefix + [disk[last]]) else Failure(FileNotFound(last))
  }

  /** Where the reconciled rows go. */
  datatype Sink =
    | SheetInsert(sheetId: string, sheetName: string, creds: string, rows: seq<seq<string>>)
    | CsvFile(path: string, header: Format, lines: seq<seq<string>>)
    | NoSink

  datatype Outcome = Exit(code: int) | Raised(error: ImportError) | Completed(sink: Sink)

  /** The output step: the spreadsheet when its id, worksheet and credentials are all set
      (rows built by `RemoteRow`), else the `--output` CSV (which `csv.DictWriter` refuses
      for a row with a column outside the output format), else nothing. */
  function Emit(deduped: seq<Record>, outputFormat: Format, org: OrgConfig, output: Option<string>,
                sheetId: Option<string>, sheetName: Option<string>, creds: Option<string>): (r: Outcome)
    ensures !r.Exit?
    ensures r.Completed? && r.sink.SheetInsert? ==>
              && |r.sink.rows| == |deduped|
              && forall row :: row in r.sink.rows ==> |row| == |outputFormat| + |org.extraColumns|
    ensures r.Completed? && r.sink.CsvFile? ==>
              && r.sink.header == outputFormat && |r.sink.lines| == |deduped|
              && forall i :: 0 <= i < |deduped| ==> r.sink.lines[i] == RowValues(deduped[i], outputFormat)
    ensures Truthy(sheetName) && Truthy(sheetId) && Truthy(creds) ==>
              r == Completed(SheetInsert(sheetId.value, sheetName.value, creds.value,
                                         RemoteRows(deduped, outputFormat, org.extraColumns)))
    ensures r.Completed? && r.sink.CsvFile? ==> output.Some? && r.sink.path == output.value
    ensures !(Truthy(sheetName) && Truthy(sheetId) && Truthy(creds)) && !Truthy(output) ==> r == Completed(NoSink)
    ensures !(Truthy(sheetName) && Truthy(sheetId) && Truthy(creds)) && Truthy(output)
            && (forall i, c :: 0 <= i < |deduped| && c in deduped[i] ==> c in outputFormat) ==>
              r.Completed? && r.sink.CsvFile?
    ensures r.Raised? ==> r.error == FieldNotInHeader
    ensures r.Raised? <==>
              && !(Truthy(sheetName) && Truthy(sheetId) && Truthy(creds)) && Truthy(output)
              && exists i, c :: 0 <= i < |deduped| && c in deduped[i] && c !in outputFormat
  {
    if Truthy(sheetName) && Truthy(sheetId) && Truthy(creds) then
      var rows := RemoteRows(deduped, outputFormat, org.extraColumns);
      assert forall row :: row in rows ==> |row| == |outputFormat| + |org.extraColumns|;
      Completed(SheetInsert(sheetId.value, sheetName.value, creds.value, rows))
    else if Truthy(output) then
      if exists i :: 0 <= i < |deduped| && !(forall c :: c in deduped[i] ==> c in outputFormat) then Raised(FieldNotInHeader)
      else
        var lines := RemoteRows(deduped, outputFormat, []);
        assert forall i :: 0 <= i < |deduped| ==> lines[i] == RowValues(deduped[i], outputFormat) + [];
        Completed(CsvFile(output.value, outputFormat, lines))
    else Completed(NoSink)
  }

  /** The rows `main` hands to the output step: the merged input files reconciled against the
      existing entries, when finding the entries, reading the files and reconciling all
      succeed. */
  function ReconciledRows(args: Args, config: Config, env: map<string, string>,
                          disk: map<string, seq<Record>>, sheetFetch: Option<seq<Record>>,
                          inputFormat: Format, outputFormat: Format): Option<seq<Record>>
  {
    var keyColumns := KeyColumns(args.keyColumns, OrgConfigOf(config, args.org));
    match ExistingEntries(args, keyColumns, SheetId(args, config, env), SheetName(args, config, env),
                          CredsPath(args, config, env), disk, sheetFetch)
    case Entries(existing) =>
      (match ReadInputs(CommaList(args.inputFiles), disk)
       case Success(files) =>
         (match Reconcile(inputFormat, outputFormat, Concat(files), existing, keyColumns)
          case Success(deduped) => Some(deduped)
          case Failure(_) => None)
       case Failure(_) => None)
    case _ => None
  }

  /** The steps of `main` once both formats are known: the existing entries, the input files,
      the reconciliation and the output. The only exit code it produces is 3, and exactly
      when the spreadsheet holding the existing entries could not be fetched. */
  function RunWithFormats(args: Args, config: Config, env: map<string, string>,
                          disk: map<string, seq<Record>>, sheetFetch: Option<seq<Record>>,
                          inputFormat: Format, outputFormat: Format): (r: Outcome)
    ensures r.Exit? ==> r.code == 3
    ensures r.Raised? ==> r.error.FileNotFound? || r.error == FieldNotInHeader
    ensures r == Exit(3) <==>
              ExistingEntries(args, KeyColumns(args.keyColumns, OrgConfigOf(config, args.org)),
                              SheetId(args, config, env), SheetName(args, config, env),
                              CredsPath(args, config, env), disk, sheetFetch) == FetchFailed
    ensures r.Completed? && r.sink.SheetInsert? ==>
              forall row :: row in r.sink.rows ==> |row| == |outputFormat| + |OrgConfigOf(config, args.org).extraColumns|
    ensures var rows := ReconciledRows(args, config, env, disk, sheetFetch, inputFormat, outputFormat);
            && (r.Completed? ==> rows.Some?)
            && (rows.Some? ==>
                  r == Emit(rows.value, outputFormat, OrgConfigOf(config, args.org), args.output,
                            SheetId(args, config, env), SheetName(args, config, env), CredsPath(args, config, env)))
  {
    var sheetId := SheetId(args, config, env);
    var sheetName := SheetName(args, config, env);
    var creds := CredsPath(args, config, env);
    var org := OrgConfigOf(config, args.org);
    var keyColumns := KeyColumns(args.keyColumns, org);
    ghost var rows := ReconciledRows(args, config, env, disk, sheetFetch, inputFormat, outputFormat);
    match ExistingEntries(args, keyColumns, sheetId, sheetName, creds, disk, sheetFetch)
    case FetchFailed => assert rows.None?; Exit(3)
    case ReadFailed(path) => assert rows.None?; Raised(FileNotFound(path))
    case Entries(existing) =>
      match ReadInputs(CommaList(args.inputFiles), disk)
      case Failure(e) => assert rows.None?; Raised(e)
      case Success(files) =>
        match Reconcile(inputFormat, outputFormat, Concat(files), existing, keyColumns)
        case Failure(e) => assert rows.None?; Raised(e)
        case Success(deduped) =>
          assert rows == Some(deduped);
          Emit(deduped, outputFormat, org, args.output, sheetId, sheetName, creds)
  }

  /** `main` once both format strings are parsed: exit status 2 exactly when the input or
      the output format resolves to nothing. */
  function RunWithParsed(args: Args, config: Config, env: map<string, string>,
                         disk: map<string, seq<Record>>, sheetFetch: Option<seq<Record>>,
                         cliIn: Option<Format>, cliOut: Option<Format>): (r: Outcome)
    ensures r == Exit(2) <==>
              GetFormat(config, args.org, InputFormatKey, cliIn).None? || GetFormat(config, args.org, OutputFormatKey, cliOut).None?
    ensures r == Exit(3) ==> sheetFetch.None? && !Truthy(args.existingCsv)
                             && KeyColumns(args.keyColumns, OrgConfigOf(config, args.org)).Some?
    ensures r.Exit? ==> r.code == 2 || r.code == 3
    ensures r.Raised? ==> r.error.FileNotFound? || r.error == FieldNotInHeader
    ensures GetFormat(config, args.org, InputFormatKey, cliIn).Some? && GetFormat(config, args.org, OutputFormatKey, cliOut).Some? ==>
              (r == Exit(3) <==> ExistingEntries(args, KeyColumns(args.keyColumns, OrgConfigOf(config, args.org)),
                                  SheetId(args, config, env), SheetName(args, config, env),
                                  CredsPath(args, config, env), disk, sheetFetch) == FetchFailed)
    ensures r.Completed? && r.sink.SheetInsert? && GetFormat(config, args.org, OutputFormatKey, cliOut).Some? ==>
              forall row :: row in r.sink.rows ==>
                |row| == |GetFormat(config, args.org, OutputFormatKey, cliOut).value| + |OrgConfigOf(config, args.org).extraColumns|
    ensures var inF, outF := GetFormat(config, args.org, InputFormatKey, cliIn), GetFormat(config, args.org, OutputFormatKey, cliOut);
            && (r.Completed? ==>
                  inF.Some? && outF.Some? && ReconciledRows(args, config, env, disk, sheetFetch, inF.value, outF.value).Some?)
            && (inF.Some? && outF.Some? && ReconciledRows(args, config, env, disk, sheetFetch, inF.value, outF.value).Some? ==>
                  r == Emit(ReconciledRows(args, config, env, disk, sheetFetch, inF.value, outF.value).value, outF.value,
                            OrgConfigOf(config, args.org), args.output,
                            SheetId(args, config, env), SheetName(args, config, env), CredsPath(args, config, env)))
  {
    var inputFormat := GetFormat(config, args.org, InputFormatKey, cliIn);
    var outputFormat := GetFormat(config, args.org, OutputFormatKey, cliOut);
    if !TruthyList(inputFormat) || !TruthyList(outputFormat) then Exit(2)
    else RunWithFormats(args, config, env, disk, sheetFetch, inputFormat.value, outputFormat.value)
  }

  /** The input and the output format `main` works with, when both format strings parse and
      both formats resolve. */
  function ResolvedFormats(args: Args, config: Config, yaml: YamlLoader): Option<(Format, Format)> {
    var parsedIn, parsedOut := ParseFormat(args.inputFormat, yaml), ParseFormat(args.outputFormat, yaml);
    if parsedIn.Failure? || parsedOut.Failure? then None
    else
      var inF := GetFormat(config, args.org, InputFormatKey, parsedIn.value);
      var outF := GetFormat(config, args.org, OutputFormatKey, parsedOut.value);
      if inF.Some? && outF.Some? then Some((inF.value, outF.value)) else None
  }

  /** `main` with its inputs made explicit: the parsed flags, the loaded configuration, the
      environment, the YAML loader, the CSV files on disk (already parsed into rows) and the
      result of fetching the spreadsheet. It exits with status 2 exactly when both format
      strings parse but the input or the output format resolves to nothing, with status 3
      only when the spreadsheet holding the existing entries could not be fetched, and with
      no other status; inserted spreadsheet rows are as wide as the output format plus the
      organization's extra columns. */
  function Run(args: Args, config: Config, env: map<string, string>, yaml: YamlLoader,
               disk: map<string, seq<Record>>, sheetFetch: Option<seq<Record>>): (r: Outcome)
    ensures r == Exit(2) <==>
              && ParseFormat(args.inputFormat, yaml).Success?
              && ParseFormat(args.outputFormat, yaml).Success?
              && (|| GetFormat(config, args.org, InputFormatKey, ParseFormat(args.inputFormat, yaml).value).None?
                  || GetFormat(config, args.org, OutputFormatKey, ParseFormat(args.outputFormat, yaml).value).None?)
    ensures r == Exit(3) ==> sheetFetch.None? && !Truthy(args.existingCsv)
                             && KeyColumns(args.keyColumns, OrgConfigOf(config, args.org)).Some?
    ensures r.Exit? ==> r.code == 2 || r.code == 3
    ensures ResolvedFormats(args, config, yaml).Some? ==>
              (r == Exit(3) <==> ExistingEntries(args, KeyColumns(args.keyColumns, OrgConfigOf(config, args.org)),
                                  SheetId(args, config, env), SheetName(args, config, env),
                                  CredsPath(args, config, env), disk, sheetFetch) == FetchFailed)
    ensures r.Raised? && r.error.FormatParseError? ==>
              ParseFormat(args.inputFormat, yaml).Failure? || ParseFormat(args.outputFormat, yaml).Failure?
    ensures r.Completed? && r.sink.SheetInsert? && ParseFormat(args.outputFormat, yaml).Success?
            && GetFormat(config, args.org, OutputFormatKey, ParseFormat(args.outputFormat, yaml).value).Some? ==>
              forall row :: row in r.sink.rows ==>
                |row| == |GetFormat(config, args.org, OutputFormatKey, ParseFormat(args.outputFormat, yaml).value).value|
                         + |OrgConfigOf(config, args.org).extraColumns|
    ensures var fmts := ResolvedFormats(args, config, yaml);
            && (r.Completed? ==>
                  fmts.Some? && ReconciledRows(args, config, env, disk, sheetFetch, fmts.value.0, fmts.value.1).Some?)
            && (fmts.Some? && ReconciledRows(args, config, env, disk, sheetFetch, fmts.value.0, fmts.value.1).Some? ==>
                  r == Emit(ReconciledRows(args, config, env, disk, sheetFetch, fmts.value.0, fmts.value.1).value, fmts.value.1,
                            OrgConfigOf(config, args.org), args.output,
                            SheetId(args, config, env), SheetName(args, config, env), CredsPath(args, config, env)))
  {
    var parsedIn := ParseFormat(args.inputFormat, yaml);
    var parsedOut := ParseFormat(args.outputFormat, yaml);
    if parsedIn.Failure? then Raised(FormatParseError(parsedIn.error))
    else if parsedOut.Failure? then Raised(FormatParseError(parsedOut.error))
    else RunWithParsed(args, config, env, disk, sheetFetch, parsedIn.value, parsedOut.value)
  }
}
