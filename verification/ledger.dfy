/** `TransactionsTable`: the in-memory ledger. It holds the records, the
    pending autocomplete recommendation and the kind of file the ledger is
    kept in. File contents enter as already-decoded parameters: reading,
    writing and the JSON/CSV codecs are not part of this model. */
module Ledger {
  import opened Wrappers
  import opened Text
  import opened Dates
  import opened Transactions
  import opened Sorting

  // ---------------------------------------------------------------------------
  // The file type, from the path's extension
  // ---------------------------------------------------------------------------

  datatype FileType = Json | Csv | Unknown

  /** The last component of a `/`-separated path that names something:
      empty components and `.` are skipped, as `Path::components` does. */
  function LastNamed(parts: seq<string>): (r: Option<string>)
    ensures r.Some? ==> r.value != "" && r.value != "."
  {
    if |parts| == 0 then None
    else
      var p := parts[|parts| - 1];
      if p == "" || p == "." then LastNamed(parts[..|parts| - 1]) else Some(p)
  }

  /** `Path::file_name`: the final component, unless it is `..` or missing. */
  function FileName(path: string): (r: Option<string>)
    ensures r.Some? ==> r.value != "" && r.value != "." && r.value != ".."
    ensures r.Some? ==> '/' !in r.value
  {
    var parts := Split(path, '/');
    SplitPieces(path, '/', '/');
    match LastNamed(parts)
    case None => None
    case Some(n) =>
      if n == ".." then None
      else
        assert n in parts by { LastNamedIn(parts); }
        Some(n)
  }

  lemma {:induction false} LastNamedIn(parts: seq<string>)
    ensures LastNamed(parts).Some? ==> LastNamed(parts).value in parts
    decreases |parts|
  {
    if |parts| > 0 {
      LastNamedIn(parts[..|parts| - 1]);
    }
  }

  /** The position of the last `.` in `s`, if any. */
  function LastDot(s: string): (r: Option<nat>)
    ensures r.None? ==> '.' !in s
    ensures r.Some? ==> r.value < |s| && s[r.value] == '.' && '.' !in s[r.value + 1..]
  {
    if |s| == 0 then None
    else if s[|s| - 1] == '.' then Some(|s| - 1)
    else
      var r := LastDot(s[..|s| - 1]);
      assert s == s[..|s| - 1] + [s[|s| - 1]];
      if r.Some? then
        assert s[r.value + 1..] == s[..|s| - 1][r.value + 1..] + [s[|s| - 1]];
        r
      else r
  }

  /** `Path::extension` of a file name: what follows the last `.`, unless
      that `.` is the first character (a hidden file) or the name is `..`. */
  function Extension(name: string): (r: Option<string>)
    ensures r.Some? ==> '.' !in r.value
  {
    if name == ".." then None
    else match LastDot(name)
      case None => None
      case Some(i) => if i == 0 then None else Some(name[i + 1..])
  }

  /** `FileType::new`: `json` and `csv` (exactly, case-sensitively) select a
      codec; every other extension, or none, is unknown. */
  function FileTypeOf(path: string): (ft: FileType)
    ensures ft != Unknown ==> FileName(path).Some? && Extension(FileName(path).value).Some?
    ensures ft == Json <==> FileName(path).Some? && Extension(FileName(path).value) == Some("json")
    ensures ft == Csv <==> FileName(path).Some? && Extension(FileName(path).value) == Some("csv")
  {
    match FileName(path)
    case None => Unknown
    case Some(name) =>
      match Extension(name)
      case None => Unknown
      case Some(ext) => if ext == "json" then Json else if ext == "csv" then Csv else Unknown
  }

  /** A name with a non-empty stem has the text after its last `.` as its
      extension. */
  lemma ExtensionOfStem(stem: string, ext: string)
    requires |stem| > 0 && '.' !in ext
    requires stem + "." + ext != ".."
    ensures Extension(stem + "." + ext) == Some(ext)
  {
    LastDotBefore(stem, ext);
    assert (stem + "." + ext)[|stem| + 1..] == ext;
  }

  /** The last `.` of `a.b` is the one after `a` when `b` has none. */
  lemma {:induction false} LastDotBefore(a: string, b: string)
    requires '.' !in b
    ensures LastDot(a + "." + b) == Some(|a|)
    decreases |b|
  {
    var s := a + "." + b;
    if |b| > 0 {
      assert s[..|s| - 1] == a + "." + b[..|b| - 1];
      assert s[|s| - 1] == b[|b| - 1];
      LastDotBefore(a, b[..|b| - 1]);
    } else {
      assert s == a + ".";
    }
  }

  /** Conversely, an extension is always the tail of the name after a `.`
      that has a non-empty stem before it. */
  lemma ExtensionShape(name: string)
    requires Extension(name).Some?
    ensures var e := Extension(name).value;
            |e| + 2 <= |name| && name == name[..|name| - |e| - 1] + "." + e
  {
    var i := LastDot(name).value;
    assert name == name[..i] + "." + name[i + 1..];
  }

  /** A file named `stem.ext` at the end of a path, with or without a
      directory in front, has the file type its extension selects. */
  lemma FileTypeOfPath(dir: string, stem: string, ext: string)
    requires |stem| > 0 && '.' !in ext && '/' !in stem && '/' !in ext
    requires stem + "." + ext != ".."
    ensures var path := dir + "/" + stem + "." + ext;
            FileTypeOf(path) == if ext == "json" then Json else if ext == "csv" then Csv else Unknown
  {
    var name := stem + "." + ext;
    assert '/' !in name;
    SplitWithoutSeparator(name, '/');
    SplitAppend(dir, name, '/');
    assert dir + "/" + stem + "." + ext == dir + ['/'] + name;
    var parts := Split(dir + ['/'] + name, '/');
    assert parts[|parts| - 1] == name;
    ExtensionOfStem(stem, ext);
  }

  // ---------------------------------------------------------------------------
  // The table
  // ---------------------------------------------------------------------------

  datatype Table = Table(transactions: seq<Transaction>, recommended: Option<string>, fileType: FileType)

  /** What an operation that can fail leaves behind: the new table and
      whether it reported an error. */
  datatype Outcome = Outcome(table: Table, status: Result<(), string>)

  const FileTypeUnknownError: string := "File type unknown"

  /** `TransactionsTable::new`: no records, no recommendation. */
  function NewTable(path: string): (t: Table)
    ensures t.transactions == [] && t.recommended.None?
    ensures t.fileType == FileTypeOf(path)
    ensures t.fileType == Json <==> FileName(path).Some? && Extension(FileName(path).value) == Some("json")
    ensures t.fileType == Csv <==> FileName(path).Some? && Extension(FileName(path).value) == Some("csv")
  {
    Table([], None, FileTypeOf(path))
  }

  /** `len`. */
  function Len(t: Table): (n: nat)
    ensures n == |t.transactions|
  {
    |t.transactions|
  }

  // ---------------------------------------------------------------------------
  // Load and save
  // ---------------------------------------------------------------------------

  /** `load_from_json`, given what reading and decoding the file produced:
      the decoded records sorted by date, or the error with the table as it
      was. */
  function LoadJson(t: Table, decoded: Result<seq<Transaction>, string>): (out: Outcome)
    ensures out.table.recommended == t.recommended && out.table.fileType == t.fileType
    ensures out.status.Ok? <==> decoded.Ok?
    ensures decoded.Err? ==> out.table == t && out.status.error == decoded.error
    ensures decoded.Ok? ==> (Sorted(out.table.transactions)
                             && multiset(out.table.transactions) == multiset(decoded.value))
  {
    match decoded
    case Err(e) => Outcome(t, Err(e))
    case Ok(ts) => Outcome(t.(transactions := SortByDate(ts)), Ok(()))
  }

  /** The records a CSV reader yielded successfully, in order. */
  function OkRecords(rs: seq<Result<Transaction, string>>): (ts: seq<Transaction>)
    ensures |ts| <= |rs|
  {
    if |rs| == 0 then []
    else
      var init := OkRecords(rs[..|rs| - 1]);
      match rs[|rs| - 1]
      case Ok(x) => init + [x]
      case Err(_) => init
  }

  /** When every record decoded, `OkRecords` is exactly their values. */
  lemma {:induction false} OkRecordsAllOk(rs: seq<Result<Transaction, string>>)
    requires forall k :: 0 <= k < |rs| ==> rs[k].Ok?
    ensures |OkRecords(rs)| == |rs|
    ensures forall k :: 0 <= k < |rs| ==> OkRecords(rs)[k] == rs[k].value
    decreases |rs|
  {
    if |rs| > 0 {
      OkRecordsAllOk(rs[..|rs| - 1]);
    }
  }

  /** `load_from_csv`, given the reader: either the error opening the file,
      or the stream of decoded records. The table is cleared first; records
      are appended until the first one that fails to decode, which ends the
      load with its error and leaves the records read so far, unsorted. A
      complete stream is sorted by date. */
  method LoadCsv(t: Table, reader: Result<seq<Result<Transaction, string>>, string>) returns (out: Outcome)
    ensures out.table.recommended == t.recommended && out.table.fileType == t.fileType
    ensures reader.Err? ==> out.table == t && out.status == Err(reader.error)
    ensures reader.Ok? ==>
      (out.status.Ok? <==> forall k :: 0 <= k < |reader.value| ==> reader.value[k].Ok?)
    ensures reader.Ok? && out.status.Ok? ==>
      out.table.transactions == SortByDate(OkRecords(reader.value))
    ensures reader.Ok? && out.status.Err? ==>
      var n := |out.table.transactions|;
      && n < |reader.value|
      && reader.value[n] == Err(out.status.error)
      && forall k :: 0 <= k < n ==> reader.value[k] == Ok(out.table.transactions[k])
  {
    match reader
    case Err(e) =>
      out := Outcome(t, Err(e));
    case Ok(rs) =>
      var ts: seq<Transaction> := [];
      var i := 0;
      while i < |rs|
        invariant 0 <= i <= |rs|
        invariant |ts| == i
        invariant forall k :: 0 <= k < i ==> rs[k] == Ok(ts[k])
      {
        match rs[i]
        case Err(e) =>
          out := Outcome(t.(transactions := ts), Err(e));
          return;
        case Ok(x) =>
          ts := ts + [x];
          i := i + 1;
      }
      assert forall k :: 0 <= k < |rs| ==> rs[k].Ok?;
      OkRecordsAllOk(rs);
      assert OkRecords(rs) == ts;
      out := Outcome(t.(transactions := SortByDate(ts)), Ok(()));
  }

  /** `load`: dispatch on the file type; an unknown type is an error that
      leaves the table as it was. */
  method Load(t: Table, json: Result<seq<Transaction>, string>,
              csv: Result<seq<Result<Transaction, string>>, string>) returns (out: Outcome)
    ensures t.fileType == Unknown ==> out == Outcome(t, Err(FileTypeUnknownError))
    ensures t.fileType == Json ==> out == LoadJson(t, json)
    ensures t.fileType == Csv && out.status.Ok? ==> Sorted(out.table.transactions)
    ensures out.table.fileType == t.fileType && out.table.recommended == t.recommended
  {
    match t.fileType
    case Json => out := LoadJson(t, json);
    case Csv => out := LoadCsv(t, csv);
    case Unknown => out := Outcome(t, Err(FileTypeUnknownError));
  }

  /** `save_transactions`: for a known file type the records are sorted
      first, whatever the outcome of the write (`written`); an unknown type
      is an error that leaves the table as it was. */
  function Save(t: Table, written: Result<(), string>): (out: Outcome)
    ensures t.fileType == Unknown ==> out == Outcome(t, Err(FileTypeUnknownError))
    ensures t.fileType != Unknown ==> (out.status == written
                                       && Sorted(out.table.transactions)
                                       && multiset(out.table.transactions) == multiset(t.transactions))
    ensures out.table.fileType == t.fileType && out.table.recommended == t.recommended
  {
    if t.fileType == Unknown then Outcome(t, Err(FileTypeUnknownError))
    else Outcome(t.(transactions := SortByDate(t.transactions)), written)
  }

  /** Loading back exactly the records just saved reproduces the table: the
      saved order is already sorted and the sort is stable. */
  lemma SaveThenLoadJson(t: Table, written: Result<(), string>)
    requires t.fileType == Json
    ensures var saved := Save(t, written).table;
            LoadJson(saved, Ok(saved.transactions)).table == saved
  {
    var saved := Save(t, written).table;
    SortSortedIsIdentity(saved.transactions);
  }

  /** Saving a table whose records are already in date order keeps them in
      their order. */
  lemma SaveSortedKeepsOrder(t: Table, written: Result<(), string>)
    requires t.fileType != Unknown && Sorted(t.transactions)
    ensures Save(t, written).table == t
  {
    SortSortedIsIdentity(t.transactions);
  }

  // ---------------------------------------------------------------------------
  // Rows
  // ---------------------------------------------------------------------------

  /** `new_transaction`: appends an empty record dated like the last one.
      hectec unwraps the last record, so the table must not be empty. */
  function AppendTransaction(t: Table): (r: Table)
    requires |t.transactions| > 0
    ensures |r.transactions| == |t.transactions| + 1
    ensures r.transactions[..|t.transactions|] == t.transactions
    ensures var last := r.transactions[|t.transactions|];
            && last.date == t.transactions[|t.transactions| - 1].date
            && last.amount == 0.0
            && forall f :: IsTextField(f) ==> FieldText(last, f) == ""
    ensures r.recommended == t.recommended && r.fileType == t.fileType
  {
    var ts := t.transactions;
    assert (ts + [NewTransaction(ts[|ts| - 1].date)])[..|ts|] == ts;
    t.(transactions := ts + [NewTransaction(ts[|ts| - 1].date)])
  }

  /** The appended record shares the last date, so a sorted table stays
      sorted. */
  lemma AppendKeepsSorted(t: Table)
    requires |t.transactions| > 0 && Sorted(t.transactions)
    ensures Sorted(AppendTransaction(t).transactions)
  {
    var ts := t.transactions;
    var r := AppendTransaction(t).transactions;
    forall i, j | 0 <= i < j < |r| ensures NotAfter(r[i], r[j]) {
      if j == |ts| {
        NotAfterPreorder(ts[i], ts[|ts| - 1], r[j]);
      } else {
        assert r[i] == ts[i] && r[j] == ts[j];
      }
    }
  }

  /** `delete_transaction`: removes the record at `i`; an index past the end
      changes nothing. */
  function DeleteTransaction(t: Table, i: nat): (r: Table)
    ensures i >= |t.transactions| ==> r == t
    ensures i < |t.transactions| ==>
      && |r.transactions| == |t.transactions| - 1
      && (forall k :: 0 <= k < i ==> r.transactions[k] == t.transactions[k])
      && (forall k :: i <= k < |r.transactions| ==> r.transactions[k] == t.transactions[k + 1])
    ensures i < |t.transactions| ==>
      multiset(r.transactions) + multiset{t.transactions[i]} == multiset(t.transactions)
    ensures r.recommended == t.recommended && r.fileType == t.fileType
  {
    var ts := t.transactions;
    if i < |ts| then
      assert ts == ts[..i] + [ts[i]] + ts[i + 1..];
      t.(transactions := ts[..i] + ts[i + 1..])
    else t
  }

  /** Deleting a record never unsorts a sorted table. */
  lemma DeleteKeepsSorted(t: Table, i: nat)
    requires Sorted(t.transactions)
    ensures Sorted(DeleteTransaction(t, i).transactions)
  {
    var ts := t.transactions;
    var r := DeleteTransaction(t, i).transactions;
    if i < |ts| {
      forall a, b | 0 <= a < b < |r| ensures NotAfter(r[a], r[b]) {
        var a' := if a < i then a else a + 1;
        var b' := if b < i then b else b + 1;
        assert r[a] == ts[a'] && r[b] == ts[b'];
      }
    }
  }

  // ---------------------------------------------------------------------------
  // Cells
  // ---------------------------------------------------------------------------

  /** `get_cell_text`: the text of the cell at `row` and `column`, if both
      exist. */
  function GetCellText(t: Table, row: nat, column: nat): (r: Option<string>)
    ensures r.Some? <==> row < |t.transactions| && column < FieldCount
    ensures r.Some? ==> r.value == FieldText(t.transactions[row], FieldAt(column).value)
  {
    if row < |t.transactions| then ColumnText(t.transactions[row], column) else None
  }

  /** The text a commit writes: the pending recommendation if there is one,
      otherwise what was typed. */
  function CommitText(t: Table, input: string): (s: string)
    ensures t.recommended.Some? ==> s == t.recommended.value
    ensures t.recommended.None? ==> s == input
  {
    t.recommended.GetOr(input)
  }

  /** `update_transaction`: stores the commit text into the cell through
      `mutate_field`. A row past the end succeeds and changes nothing; a
      parse failure reports the error and changes nothing. The records are
      not re-sorted, and the recommendation is left as it is. */
  function UpdateTransaction(t: Table, row: nat, column: nat, input: string): (out: Outcome)
    ensures out.table.recommended == t.recommended && out.table.fileType == t.fileType
    ensures |out.table.transactions| == |t.transactions|
    ensures forall k :: 0 <= k < |t.transactions| && k != row ==>
              out.table.transactions[k] == t.transactions[k]
    ensures row >= |t.transactions| ==> out == Outcome(t, Ok(()))
    ensures out.status.Err? ==> out.table == t
    ensures row < |t.transactions| ==>
      match MutateField(t.transactions[row], column, CommitText(t, input))
      case Ok(x) => out.status.Ok? && out.table.transactions[row] == x
      case Err(e) => out.status == Err(e)
  {
    var ts := t.transactions;
    if row < |ts| then
      match MutateField(ts[row], column, CommitText(t, input))
      case Ok(x) => Outcome(t.(transactions := ts[row := x]), Ok(()))
      case Err(e) => Outcome(t, Err(e))
    else Outcome(t, Ok(()))
  }

  /** A pending recommendation overrides what was typed: committing a text
      column stores the recommendation, whatever the input. */
  lemma CommitUsesRecommendation(t: Table, row: nat, f: Field, input: string)
    requires row < |t.transactions| && IsTextField(f) && t.recommended.Some?
    ensures var out := UpdateTransaction(t, row, IndexOf(f), input);
            out.status.Ok? && FieldText(out.table.transactions[row], f) == t.recommended.value
  {
    FieldIndexRoundTrip(f, IndexOf(f));
  }

  /** Changing a column other than the date keeps a sorted table sorted. */
  lemma UpdateOtherThanDateKeepsSorted(t: Table, row: nat, column: nat, input: string)
    requires Sorted(t.transactions) && column != 0
    ensures Sorted(UpdateTransaction(t, row, column, input).table.transactions)
  {
    var ts := t.transactions;
    var r := UpdateTransaction(t, row, column, input).table.transactions;
    if row < |ts| {
      assert r[row].date == ts[row].date;
      forall i, j | 0 <= i < j < |r| ensures NotAfter(r[i], r[j]) {
        assert r[i].date == ts[i].date && r[j].date == ts[j].date;
      }
    }
  }

  /** Since a commit does not re-sort, moving a record's date past its
      successor's leaves the table out of order. */
  lemma UpdateDateCanUnsort(t: Table, row: nat, input: string)
    requires row + 1 < |t.transactions|
    requires var out := UpdateTransaction(t, row, 0, input);
             out.status.Ok? && TransactionCmp(out.table.transactions[row], t.transactions[row + 1]) == Greater
    ensures !Sorted(UpdateTransaction(t, row, 0, input).table.transactions)
  {
    var r := UpdateTransaction(t, row, 0, input).table.transactions;
    assert !NotAfter(r[row], r[row + 1]);
  }

  // ---------------------------------------------------------------------------
  // Autocomplete
  // ---------------------------------------------------------------------------

  /** Whether record `x` offers a completion for `input` in column `f`. */
  predicate Offers(x: Transaction, f: Field, input: string) {
    StartsWith(FieldText(x, f), input)
  }

  /** The texts of column `f`, row by row. */
  function ColumnTexts(ts: seq<Transaction>, f: Field): (texts: seq<string>)
    ensures |texts| == |ts|
    ensures forall k :: 0 <= k < |ts| ==> texts[k] == FieldText(ts[k], f)
  {
    seq(|ts|, k requires 0 <= k < |ts| => FieldText(ts[k], f))
  }

  /** Scans `texts[..n]` from the end for the first text that starts with
      `input`; the position of the nearest one. */
  function ScanBack(texts: seq<string>, n: nat, input: string): (r: Option<nat>)
    requires n <= |texts|
    ensures r.Some? ==> r.value < n && StartsWith(texts[r.value], input)
    ensures r.Some? ==> forall k :: r.value < k < n ==> !StartsWith(texts[k], input)
    ensures r.None? ==> forall k :: 0 <= k < n ==> !StartsWith(texts[k], input)
  {
    if n == 0 then None
    else if StartsWith(texts[n - 1], input) then Some(n - 1)
    else ScanBack(texts, n - 1, input)
  }

  /** `find_recommended_transactions_by_field`: the nearest record above
      `row` whose text in column `f` starts with `input`. */
  function FindRecommended(ts: seq<Transaction>, row: nat, f: Field, input: string): (r: Option<nat>)
    ensures r.Some? ==> r.value < row && r.value < |ts| && Offers(ts[r.value], f, input)
    ensures r.Some? ==> forall k :: r.value < k < Min(row, |ts|) ==> !Offers(ts[k], f, input)
    ensures r.None? ==> forall k :: 0 <= k < Min(row, |ts|) ==> !Offers(ts[k], f, input)
  {
    ScanBack(ColumnTexts(ts, f), Min(row, |ts|), input)
  }

  /** The text searched for with empty input: the row's own details, or
      nothing when the row does not exist. */
  function DetailsKey(ts: seq<Transaction>, row: nat): (key: string)
    ensures row < |ts| ==> key == ts[row].details
    ensures row >= |ts| ==> key == ""
  {
    if row < |ts| then ts[row].details else ""
  }

  /** `update_recommended_input`. With typed input, the recommendation is
      the column text of the nearest earlier record whose text in that
      column starts with the input. With no input, it is the column text of
      the nearest earlier record whose details start with this row's
      details. A column past the last leaves the old recommendation. */
  function UpdateRecommendedInput(t: Table, row: nat, column: nat, input: string): (r: Table)
    ensures r.transactions == t.transactions && r.fileType == t.fileType
    ensures FieldAt(column).None? ==> r == t
    ensures FieldAt(column).Some? ==>
      var f := FieldAt(column).value;
      var key := if |input| > 0 then input else DetailsKey(t.transactions, row);
      var searched := if |input| > 0 then f else Details;
      match FindRecommended(t.transactions, row, searched, key)
      case Some(k) => r.recommended == Some(FieldText(t.transactions[k], f))
      case None => r.recommended.None?
  {
    match FieldAt(column)
    case None => t
    case Some(f) =>
      if |input| > 0 then
        match FindRecommended(t.transactions, row, f, input)
        case Some(k) => t.(recommended := Some(FieldText(t.transactions[k], f)))
        case None => t.(recommended := None)
      else
        match FindRecommended(t.transactions, row, Details, DetailsKey(t.transactions, row))
        case Some(k) => t.(recommended := Some(FieldText(t.transactions[k], f)))
        case None => t.(recommended := None)
  }

  /** With typed input, a recommendation always extends the input, and
      there is one exactly when some earlier row offers one. */
  lemma RecommendationExtendsInput(t: Table, row: nat, column: nat, input: string)
    requires column < FieldCount && |input| > 0
    ensures var r := UpdateRecommendedInput(t, row, column, input).recommended;
            && (r.Some? ==> StartsWith(r.value, input))
            && (r.Some? <==> exists k :: 0 <= k < Min(row, |t.transactions|)
                                        && Offers(t.transactions[k], FieldAt(column).value, input))
  {
  }

  /** With no input and empty details (or no such row), every record
      matches, so the recommendation comes from the record just above. */
  lemma EmptyDetailsRecommendsPrevious(t: Table, row: nat, column: nat)
    requires column < FieldCount && 0 < row <= |t.transactions|
    requires row < |t.transactions| ==> t.transactions[row].details == ""
    ensures UpdateRecommendedInput(t, row, column, "").recommended
         == Some(FieldText(t.transactions[row - 1], FieldAt(column).value))
  {
    var ts := t.transactions;
    assert DetailsKey(ts, row) == "";
    StartsWithEmpty(ts[row - 1].details);
    NearestIsPrevious(ts, row, Details, "");
  }

  /** When the record just above offers a completion, it is the one found. */
  lemma NearestIsPrevious(ts: seq<Transaction>, row: nat, f: Field, key: string)
    requires 0 < row <= |ts| && Offers(ts[row - 1], f, key)
    ensures FindRecommended(ts, row, f, key) == Some(row - 1)
  {
  }

  /** `clear_recommended_input`. */
  function ClearRecommended(t: Table): (r: Table)
    ensures r.recommended.None?
    ensures r.transactions == t.transactions && r.fileType == t.fileType
  {
    t.(recommended := None)
  }

  // ---------------------------------------------------------------------------
  // Ghost text
  // ---------------------------------------------------------------------------

  /** `get_recommended_input`: the part of the recommendation after the
      first |input| characters, shown after the cursor; nothing when there
      is no recommendation or the input is longer. */
  function GhostText(t: Table, input: string): (g: string)
    ensures t.recommended.None? || |input| > |t.recommended.value| ==> g == ""
    ensures t.recommended.Some? && |input| <= |t.recommended.value| ==>
            |g| == |t.recommended.value| - |input|
    ensures t.recommended.Some? ==> g == t.recommended.value[|t.recommended.value| - |g|..]
  {
    match t.recommended
    case None => ""
    case Some(rec) => if |input| > |rec| then "" else rec[|input|..]
  }

  /** When the recommendation extends the input, input and ghost text
      together spell out the recommendation. */
  lemma GhostTextCompletes(t: Table, input: string)
    requires t.recommended.Some? && StartsWith(t.recommended.value, input)
    ensures input + GhostText(t, input) == t.recommended.value
  {
    var rec := t.recommended.value;
    assert rec == rec[..|input|] + rec[|input|..];
  }

  /** Right after a recommendation search on typed input, the ghost text
      completes what was typed to the recommendation. */
  lemma SearchThenGhostText(t: Table, row: nat, column: nat, input: string)
    requires column < FieldCount && |input| > 0
    ensures var u := UpdateRecommendedInput(t, row, column, input);
            u.recommended.Some? ==> input + GhostText(u, input) == u.recommended.value
  {
    var u := UpdateRecommendedInput(t, row, column, input);
    RecommendationExtendsInput(t, row, column, input);
    if u.recommended.Some? {
      GhostTextCompletes(u, input);
    }
  }

  /** `get_recommended_input` as written: the character count of the input
      is used as a byte offset into the recommendation. `None` stands for
      the panic Rust raises when that offset is not a character boundary. */
  function GhostTextAsWritten(t: Table, input: string): (g: Option<string>)
    ensures t.recommended.None? ==> g == Some("")
  {
    match t.recommended
    case None => Some("")
    case Some(rec) => if |input| > |rec| then Some("") else ByteSliceFrom(rec, |input|)
  }

  /** As written, a recommendation starting with a two-byte character
      panics after one typed character. */
  lemma GhostTextAsWrittenPanics()
    ensures GhostTextAsWritten(Table([], Some("\U{E9}a"), Json), "\U{E9}") == None
    ensures GhostText(Table([], Some("\U{E9}a"), Json), "\U{E9}") == "a"
  {
    assert Utf8Width('\U{E9}') == 2;
  }

  /** As written, the suffix can also come out too long: after two typed
      characters of `éab` it shows `ab` instead of `b`. */
  lemma GhostTextAsWrittenWrongSuffix()
    ensures GhostTextAsWritten(Table([], Some("\U{E9}ab"), Json), "\U{E9}a") == Some("ab")
    ensures GhostText(Table([], Some("\U{E9}ab"), Json), "\U{E9}a") == "b"
  {
    var rec := "\U{E9}ab";
    assert Utf8Width('\U{E9}') == 2;
    assert rec[1..] == "ab";
    assert ByteSliceFrom(rec, 2) == ByteSliceFrom("ab", 0);
  }

  /** The two agree whenever the recommendation's first |input| characters
      are ASCII, which is the only case the Rust code handles correctly. */
  lemma GhostTextAgreesOnAscii(t: Table, input: string)
    requires t.recommended.Some? && |input| <= |t.recommended.value|
    requires IsAscii(t.recommended.value[..|input|])
    ensures GhostTextAsWritten(t, input) == Some(GhostText(t, input))
  {
    var rec := t.recommended.value;
    Utf8LenBounds(rec[..|input|]);
    ByteSliceAtBoundary(rec, |input|);
  }
}
