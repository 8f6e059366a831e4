/** The batch driver of `generate_keyset.py`: the CSV records after the
    header become one legend each, named after its 1-based row number, its
    title and its action. A malformed row aborts the run. */
module GenerateKeyset {
  import opened Results
  import opened Strings
  import opened Layout
  import SvgToPdf

  /** One data row, its font sizes already converted by `int()`. */
  datatype Row = Row(title: string, action: string, icon: string, titleFontSize: int, actionFontSize: int,
                     titleFontFamily: string, actionFontFamily: string,
                     backgroundColor: string, titleColor: string, actionColor: string)

  /** The legend written for one row: its output file name and its row. */
  datatype Legend = Legend(fileName: string, row: Row)

  datatype GenerateError =
    | NoHeader                   // `next(reader)` raised StopIteration on an empty file
    | WrongFieldCount(row: nat)  // unpacking the row into ten names raised ValueError
    | BadFontSize(row: nat)      // `int()` of a font size raised ValueError
    | LegendCallFails(row: nat)  // the call to `create_keylegend` raised TypeError

  /** The number of fields every row must have. */
  const FieldCount: nat := 10

  /** A row the loop body accepts: ten fields, both font sizes integers. */
  predicate ValidRecord(fields: seq<string>) {
    |fields| == FieldCount && ParseInt(fields[3]).Some? && ParseInt(fields[4]).Some?
  }

  /** Unpacks and converts the `k`-th data row. */
  function ParseRow(fields: seq<string>, k: nat): (r: Result<Row, GenerateError>)
    ensures r.Ok? <==> ValidRecord(fields)
    ensures r.Ok? ==>
      && r.value.title == fields[0] && r.value.action == fields[1] && r.value.icon == fields[2]
      && Some(r.value.titleFontSize) == ParseInt(fields[3])
      && Some(r.value.actionFontSize) == ParseInt(fields[4])
      && r.value.titleFontFamily == fields[5] && r.value.actionFontFamily == fields[6]
      && r.value.backgroundColor == fields[7] && r.value.titleColor == fields[8]
      && r.value.actionColor == fields[9]
    ensures r.Err? ==> r.error == (if |fields| != FieldCount then WrongFieldCount(k) else BadFontSize(k))
  {
    if |fields| != FieldCount then Err(WrongFieldCount(k))
    else
      match (ParseInt(fields[3]), ParseInt(fields[4]))
      case (Some(t), Some(a)) =>
        Ok(Row(fields[0], fields[1], fields[2], t, a, fields[5], fields[6], fields[7], fields[8], fields[9]))
      case _ => Err(BadFontSize(k))
  }

  /** `f"{idx + 1}-{title}-{action}.svg"` for the `k`-th data row. */
  function FileName(k: nat, row: Row): string {
    NatToDecimal(k) + "-" + row.title + "-" + row.action + ".svg"
  }

  /** The loop over the data rows, numbering them from `k`. */
  function Rows(records: seq<seq<string>>, k: nat): Result<seq<Legend>, GenerateError>
    decreases |records|
  {
    if records == [] then Ok([])
    else
      var row :- ParseRow(records[0], k);
      var rest :- Rows(records[1..], k + 1);
      Ok([Legend(FileName(k, row), row)] + rest)
  }

  /** `generate_keyset`: the legends written, the header row skipped. */
  function Generate(records: seq<seq<string>>): Result<seq<Legend>, GenerateError> {
    if records == [] then Err(NoHeader) else Rows(records[1..], 1)
  }

  /** The loop as written: each valid row's call passes eleven arguments
      (the icon among them) to `create_keylegend`, which takes ten, so the
      first valid data row raises TypeError before any legend is saved. */
  function RowsAsWritten(records: seq<seq<string>>, k: nat): (r: Result<seq<Legend>, GenerateError>)
    ensures r.Ok? <==> records == []
    ensures records != [] && ValidRecord(records[0]) ==> r == Err(LegendCallFails(k))
  {
    if records == [] then Ok([])
    else
      var row :- ParseRow(records[0], k);
      Err(LegendCallFails(k))
  }

  /** `generate_keyset` as written, with the call that cannot succeed. */
  function GenerateAsWritten(records: seq<seq<string>>): Result<seq<Legend>, GenerateError> {
    if records == [] then Err(NoHeader) else RowsAsWritten(records[1..], 1)
  }

  /** As written, the driver produces legends for no input at all: it
      succeeds only on a file with a header and no data, and a file whose
      first data row is valid fails on that row's call. `Generate`, which
      passes the row's fields as the ten parameters, writes one legend per
      data row for the same file whenever every data row is valid. */
  lemma AsWrittenWritesNoLegend(records: seq<seq<string>>)
    ensures GenerateAsWritten(records).Ok? <==> |records| == 1
    ensures GenerateAsWritten(records).Ok? ==> GenerateAsWritten(records).value == []
    ensures |records| >= 2 && ValidRecord(records[1]) ==>
      GenerateAsWritten(records) == Err(LegendCallFails(1))
    ensures |records| >= 2 && (forall i :: 1 <= i < |records| ==> ValidRecord(records[i])) ==>
      Generate(records).Ok? && |Generate(records).value| == |records| - 1
  {
    GenerateSpec(records);
  }

  /** A header and one row: as written the run stops with TypeError on
      row 1; `Generate` writes `1-Copy-Ctrl$C.svg`. */
  lemma OneRowExample()
    ensures
      var row := ["Copy", "Ctrl$C", "", "12", "22", "Helvetica", "Helvetica", "none", "black", "black"];
      var records := [["title"], row];
      && GenerateAsWritten(records) == Err(LegendCallFails(1))
      && Generate(records).Ok?
      && |Generate(records).value| == 1
      && Generate(records).value[0].fileName == "1-Copy-Ctrl$C.svg"
  {
    var row := ["Copy", "Ctrl$C", "", "12", "22", "Helvetica", "Helvetica", "none", "black", "black"];
    var records := [["title"], row];
    assert records[1..] == [row];
    assert IsDecimal(row[3]) && IsDecimal(row[4]);
    assert ValidRecord(row);
    var r := ParseRow(row, 1).value;
    assert NatToDecimal(1) == "1";
    assert FileName(1, r) == "1-Copy-Ctrl$C.svg";
    RowsOk([row], 1);
    RowsCons([row], 1);
    var none: seq<seq<string>> := [];
    assert [row][1..] == none;
  }

  /** `Rows` succeeds exactly when every record is valid. */
  lemma {:induction false} RowsOk(records: seq<seq<string>>, k: nat)
    ensures Rows(records, k).Ok? <==> forall i :: 0 <= i < |records| ==> ValidRecord(records[i])
    decreases |records|
  {
    if records != [] {
      RowsOk(records[1..], k + 1);
      assert forall j :: 0 < j < |records| ==> records[j] == records[1..][j - 1];
    }
  }

  /** On success `Rows` writes one legend per record, numbered from `k`. */
  lemma {:induction false} RowsValues(records: seq<seq<string>>, k: nat)
    requires Rows(records, k).Ok?
    ensures
      var ls := Rows(records, k).value;
      && |ls| == |records|
      && forall i :: 0 <= i < |ls| ==>
           ParseRow(records[i], k + i) == Ok(ls[i].row) && ls[i].fileName == FileName(k + i, ls[i].row)
    decreases |records|
  {
    if records != [] {
      RowsCons(records, k);
      var rest := Rows(records[1..], k + 1).value;
      RowsValues(records[1..], k + 1);
      var ls := Rows(records, k).value;
      forall i | 0 < i < |ls|
        ensures ParseRow(records[i], k + i) == Ok(ls[i].row) && ls[i].fileName == FileName(k + i, ls[i].row)
      {
        assert ls[i] == rest[i - 1] && records[i] == records[1..][i - 1];
      }
    }
  }

  /** Unfolding a successful `Rows` over its first record. */
  lemma RowsCons(records: seq<seq<string>>, k: nat)
    requires records != [] && Rows(records, k).Ok?
    ensures ParseRow(records[0], k).Ok? && Rows(records[1..], k + 1).Ok?
    ensures
      var row := ParseRow(records[0], k).value;
      Rows(records, k).value == [Legend(FileName(k, row), row)] + Rows(records[1..], k + 1).value
  {
  }

  /** On failure `Rows` reports the first invalid record. */
  lemma {:induction false} RowsError(records: seq<seq<string>>, k: nat)
    requires Rows(records, k).Err?
    ensures
      exists i :: 0 <= i < |records| && !ValidRecord(records[i])
        && (forall j :: 0 <= j < i ==> ValidRecord(records[j]))
        && Rows(records, k).error == ParseRow(records[i], k + i).error
    decreases |records|
  {
    if ParseRow(records[0], k).Ok? {
      RowsError(records[1..], k + 1);
      var i :| 0 <= i < |records[1..]| && !ValidRecord(records[1..][i])
        && (forall j :: 0 <= j < i ==> ValidRecord(records[1..][j]))
        && Rows(records[1..], k + 1).error == ParseRow(records[1..][i], k + 1 + i).error;
      assert records[i + 1] == records[1..][i];
      assert forall j :: 0 < j < i + 1 ==> records[j] == records[1..][j - 1];
    }
  }

  /** A run succeeds exactly when there is a header and every data row is
      valid; it then writes one legend per data row, the k-th (from 1) named
      `k-title-action.svg` after its own fields. An empty file fails on the
      missing header; otherwise the first invalid data row is reported by
      its number. */
  lemma GenerateSpec(records: seq<seq<string>>)
    ensures Generate(records).Ok? <==>
      records != [] && forall i :: 1 <= i < |records| ==> ValidRecord(records[i])
    ensures Generate(records) == Err(NoHeader) <==> records == []
    ensures Generate(records).Ok? ==>
      var ls := Generate(records).value;
      && |ls| == |records| - 1
      && forall i :: 0 <= i < |ls| ==>
           && ls[i].row.title == records[i + 1][0]
           && ls[i].row.action == records[i + 1][1]
           && ls[i].fileName == NatToDecimal(i + 1) + "-" + records[i + 1][0] + "-" + records[i + 1][1] + ".svg"
    ensures records != [] && Generate(records).Err? ==>
      exists k :: 1 <= k < |records| && !ValidRecord(records[k])
        && (forall j :: 1 <= j < k ==> ValidRecord(records[j]))
        && Generate(records).error == (if |records[k]| != FieldCount then WrongFieldCount(k) else BadFontSize(k))
  {
    if records != [] {
      RowsOk(records[1..], 1);
      assert forall i :: 0 <= i < |records[1..]| ==> records[1..][i] == records[i + 1];
      if Generate(records).Ok? {
        GenerateValues(records);
      } else {
        GenerateFirstError(records);
      }
    }
  }

  /** The legends of a successful run, from the data rows in order. */
  lemma GenerateValues(records: seq<seq<string>>)
    requires Generate(records).Ok?
    ensures
      var ls := Generate(records).value;
      && |ls| == |records| - 1
      && forall i :: 0 <= i < |ls| ==>
           && ValidRecord(records[i + 1])
           && ls[i].row.title == records[i + 1][0]
           && ls[i].row.action == records[i + 1][1]
           && ls[i].fileName == NatToDecimal(i + 1) + "-" + records[i + 1][0] + "-" + records[i + 1][1] + ".svg"
  {
    var data := records[1..];
    var ls := Rows(data, 1).value;
    RowsOk(data, 1);
    assert forall i :: 1 <= i < |records| ==> records[i] == data[i - 1];
    RowsValues(data, 1);
    forall i | 0 <= i < |ls|
      ensures ValidRecord(records[i + 1])
      ensures ls[i].row.title == records[i + 1][0]
      ensures ls[i].row.action == records[i + 1][1]
      ensures ls[i].fileName == NatToDecimal(i + 1) + "-" + records[i + 1][0] + "-" + records[i + 1][1] + ".svg"
    {
      assert data[i] == records[i + 1];
      assert ParseRow(data[i], 1 + i) == Ok(ls[i].row);
    }
  }

  /** A failed run with a header reports its first invalid data row. */
  lemma GenerateFirstError(records: seq<seq<string>>)
    requires records != [] && Generate(records).Err?
    ensures
      exists k :: 1 <= k < |records| && !ValidRecord(records[k])
        && (forall j :: 1 <= j < k ==> ValidRecord(records[j]))
        && Generate(records).error == (if |records[k]| != FieldCount then WrongFieldCount(k) else BadFontSize(k))
  {
    var data := records[1..];
    RowsError(data, 1);
    var i :| 0 <= i < |data| && !ValidRecord(data[i])
      && (forall j :: 0 <= j < i ==> ValidRecord(data[j]))
      && Rows(data, 1).error == ParseRow(data[i], 1 + i).error;
    assert data[i] == records[i + 1];
    assert forall j :: 1 <= j < i + 1 ==> ValidRecord(records[j]) by {
      forall j | 1 <= j < i + 1 ensures ValidRecord(records[j]) {
        assert records[j] == data[j - 1];
      }
    }
  }

  /** The first record is a header: whatever it holds, the run is the same. */
  lemma HeaderIgnored(header: seq<string>, other: seq<string>, rows: seq<seq<string>>)
    ensures Generate([header] + rows) == Generate([other] + rows)
  {
    assert ([header] + rows)[1..] == rows == ([other] + rows)[1..];
  }

  /** Every name parses back, through the sheet compositor's prefix
      extractor, to its row number, and is kept by its `.svg` filter. */
  lemma NamesRoundTrip(records: seq<seq<string>>)
    requires Generate(records).Ok?
    ensures
      var ls := Generate(records).value;
      forall i :: 0 <= i < |ls| ==>
        && SvgToPdf.ExtractPrefix(ls[i].fileName) == Some(i + 1)
        && EndsWith(ls[i].fileName, ".svg")
  {
    var ls := Rows(records[1..], 1).value;
    assert Generate(records).value == ls;
    RowsValues(records[1..], 1);
    forall i | 0 <= i < |ls|
      ensures SvgToPdf.ExtractPrefix(ls[i].fileName) == Some(i + 1)
      ensures EndsWith(ls[i].fileName, ".svg")
    {
      assert ls[i].fileName == FileName(1 + i, ls[i].row);
      FileNameParses(1 + i, ls[i].row);
    }
  }

  /** One legend's name: its prefix is its row number and it ends in `.svg`. */
  lemma FileNameParses(k: nat, row: Row)
    ensures SvgToPdf.ExtractPrefix(FileName(k, row)) == Some(k)
    ensures EndsWith(FileName(k, row), ".svg")
  {
    var name := FileName(k, row);
    SvgToPdf.PrefixRoundTrip(k, row.title + "-" + row.action + ".svg");
    assert name == NatToDecimal(k) + "-" + (row.title + "-" + row.action + ".svg");
    assert name[|name| - 4..] == ".svg";
  }

  /** No two rows are written to the same file. */
  lemma NamesDistinct(records: seq<seq<string>>)
    requires Generate(records).Ok?
    ensures
      var ls := Generate(records).value;
      forall i, j :: 0 <= i < j < |ls| ==> ls[i].fileName != ls[j].fileName
  {
    NamesRoundTrip(records);
  }

  /** The names of the legends written. */
  function FileNames(ls: seq<Legend>): (names: set<string>)
    ensures forall i :: 0 <= i < |ls| ==> ls[i].fileName in names
    ensures forall name :: name in names ==> exists i :: 0 <= i < |ls| && ls[i].fileName == name
  {
    set l | l in ls :: l.fileName
  }

  /** The names of the entries of a directory listing. */
  function EntryNames(entries: seq<Item>): (names: set<string>)
    ensures forall j :: 0 <= j < |entries| ==> entries[j].name in names
    ensures forall name :: name in names ==> exists j :: 0 <= j < |entries| && entries[j].name == name
  {
    set e | e in entries :: e.name
  }

  /** Strictly increasing values between 1 and `n` that take every value in
      that range are exactly 1, 2, ..., n. */
  lemma CountsFromOne(p: seq<int>, n: nat)
    requires forall i, j :: 0 <= i < j < |p| ==> p[i] < p[j]
    requires forall i :: 0 <= i < |p| ==> 1 <= p[i] <= n
    requires forall v :: 1 <= v <= n ==> v in p
    ensures |p| == n
    ensures forall i :: 0 <= i < |p| ==> p[i] == i + 1
  {
    forall i | 0 <= i < |p| ensures p[i] == i + 1 {
      CountsFromOnePrefix(p, n, i);
    }
    if n >= 1 {
      assert n in p;
      var j :| 0 <= j < |p| && p[j] == n;
    }
    if |p| > 0 {
      assert p[|p| - 1] == |p|;
    }
  }

  lemma {:induction false} CountsFromOnePrefix(p: seq<int>, n: nat, i: nat)
    requires forall i, j :: 0 <= i < j < |p| ==> p[i] < p[j]
    requires forall i :: 0 <= i < |p| ==> 1 <= p[i] <= n
    requires forall v :: 1 <= v <= n ==> v in p
    requires i < |p|
    ensures forall k :: 0 <= k <= i ==> p[k] == k + 1
    decreases i
  {
    if i > 0 {
      CountsFromOnePrefix(p, n, i - 1);
    }
    LowerBound(p, i);
    assert i + 1 <= n;
    assert i + 1 in p;
    var j :| 0 <= j < |p| && p[j] == i + 1;
    LowerBound(p, j);
  }

  lemma {:induction false} LowerBound(p: seq<int>, i: nat)
    requires forall i, j :: 0 <= i < j < |p| ==> p[i] < p[j]
    requires forall i :: 0 <= i < |p| ==> 1 <= p[i]
    requires i < |p|
    ensures p[i] >= i + 1
    decreases i
  {
    if i > 0 {
      LowerBound(p, i - 1);
    }
  }

  /** The prefixes of a listing whose names all have one. */
  function Prefixes(order: seq<Item>): (p: seq<int>)
    requires forall i :: 0 <= i < |order| ==> SvgToPdf.ExtractPrefix(order[i].name).Some?
    ensures |p| == |order|
    ensures forall i :: 0 <= i < |order| ==> p[i] == SvgToPdf.ExtractPrefix(order[i].name).value
  {
    seq(|order|, i requires 0 <= i < |order| => SvgToPdf.ExtractPrefix(order[i].name).value)
  }

  /** In a listing of generated names each prefix is a row number and
      names the row's legend. */
  lemma PrefixIsRow(ls: seq<Legend>, order: seq<Item>)
    requires forall i :: 0 <= i < |ls| ==> SvgToPdf.ExtractPrefix(ls[i].fileName) == Some(i + 1)
    requires SvgToPdf.AscendingPrefixes(order)
    requires EntryNames(order) == FileNames(ls)
    ensures forall i :: 0 <= i < |order| ==>
      1 <= Prefixes(order)[i] <= |ls| && order[i].name == ls[Prefixes(order)[i] - 1].fileName
  {
    forall i | 0 <= i < |order|
      ensures 1 <= Prefixes(order)[i] <= |ls| && order[i].name == ls[Prefixes(order)[i] - 1].fileName
    {
      var m := RowOf(ls, order[i].name);
    }
  }

  /** A listing of exactly the generated names, without repeats, in
      ascending prefix order, is the row order. */
  lemma AscendingIsRowOrder(ls: seq<Legend>, order: seq<Item>)
    requires forall i :: 0 <= i < |ls| ==> SvgToPdf.ExtractPrefix(ls[i].fileName) == Some(i + 1)
    requires DistinctNames(order)
    requires SvgToPdf.AscendingPrefixes(order)
    requires EntryNames(order) == FileNames(ls)
    ensures |order| == |ls|
    ensures forall i :: 0 <= i < |ls| ==> order[i].name == ls[i].fileName
  {
    var n := |ls|;
    var p := Prefixes(order);
    PrefixIsRow(ls, order);
    forall i, j | 0 <= i < j < |p| ensures p[i] < p[j] {
      assert order[i].name != order[j].name;
    }
    forall v | 1 <= v <= n ensures v in p {
      var name := ls[v - 1].fileName;
      assert name in EntryNames(order);
      var q :| 0 <= q < |order| && order[q].name == name;
      assert p[q] == v;
    }
    CountsFromOne(p, n);
    forall i | 0 <= i < n ensures order[i].name == ls[i].fileName {
      assert p[i] == i + 1;
    }
  }

  /** However the directory lists the generated legends, the sheet
      compositor of `svg_to_pdf.py` puts them in row order: the i-th drawing
      (from 0) is the legend of the i-th data row, and with a column limit of
      at least one the whole sheet is drawn in that order. */
  lemma SheetFollowsRowOrder(records: seq<seq<string>>, entries: seq<Item>, sheet: SvgToPdf.Sheet)
    requires Generate(records).Ok?
    requires DistinctNames(entries)
    requires EntryNames(entries) == FileNames(Generate(records).value)
    ensures forall j :: 0 <= j < |entries| ==> SvgToPdf.ExtractPrefix(entries[j].name).Some?
    ensures
      var ls := Generate(records).value;
      var order := SvgToPdf.DrawingOrder(entries);
      && |order| == |ls|
      && forall i :: 0 <= i < |ls| ==> order[i].name == ls[i].fileName
    ensures sheet.maxColumns >= 1 ==>
      var ls := Generate(records).value;
      var r := SvgToPdf.Compose(sheet, entries);
      && r.Ok? && |r.value| == |ls|
      && forall i :: 0 <= i < |ls| ==> r.value[i].name == ls[i].fileName
  {
    var ls := Generate(records).value;
    NamesRoundTrip(records);
    forall j | 0 <= j < |entries|
      ensures SvgToPdf.ExtractPrefix(entries[j].name).Some? && IsSvg(entries[j])
    {
      var m := RowOf(ls, entries[j].name);
    }
    SvgItemsOfDrawings(entries);
    var order := SvgToPdf.DrawingOrder(entries);
    assert multiset(order) == multiset(entries);
    PermutationKeepsNamesDistinct(entries, order);
    SameEntryNames(entries, order);
    AscendingIsRowOrder(ls, order);
    if sheet.maxColumns >= 1 {
      SvgToPdf.ComposeFailsOnlyWithoutColumns(sheet, entries);
      SvgToPdf.ComposeDrawsInOrder(sheet, entries);
    }
  }

  lemma SameEntryNames(a: seq<Item>, b: seq<Item>)
    requires multiset(a) == multiset(b)
    ensures EntryNames(a) == EntryNames(b)
  {
    forall e ensures e in a <==> e in b {
      assert e in a <==> e in multiset(a);
      assert e in b <==> e in multiset(b);
    }
  }

  /** The row a generated name belongs to. */
  lemma RowOf(ls: seq<Legend>, name: string) returns (m: nat)
    requires name in FileNames(ls)
    ensures m < |ls| && ls[m].fileName == name
  {
    m :| 0 <= m < |ls| && ls[m].fileName == name;
  }
}
