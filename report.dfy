/** The three report writers: `generateMarkdownFile`, `generateCSVFile` and
    `generateJSONFile`. Each walks the collected paths in insertion order
    and stats every one; a failed stat aborts the writer. The text reports
    are specified by `ReportText`, and `ParseReport` reads one back. */
module Report {
  import opened Text
  import opened Host
  import opened Collector

  // ----- sizes -----

  /** `(bytes / 1024).toFixed(2)` as a whole number of hundredths. The
      quotient is exact in binary floating point, and `toFixed` rounds the
      exact value to the nearest hundredth, taking the larger on a tie. */
  function Hundredths(bytes: nat): (h: nat)
    ensures -512 <= 100 * bytes - 1024 * h < 512
  {
    (100 * bytes + 512) / 1024
  }

  /** A count of hundredths written with two decimals, as `toFixed(2)` does. */
  function Fixed2(n: nat): string
  {
    Dec(n / 100) + "." + [DigitChar(n / 10 % 10), DigitChar(n % 10)]
  }

  /** The "Size (KB)" column. */
  function FormatKB(bytes: nat): string
  {
    Fixed2(Hundredths(bytes))
  }

  /** The size in kilobytes that the JSON report records, `size / 1024`. */
  function Kb(bytes: nat): real
  {
    bytes as real / 1024.0
  }

  /** Reads `<digits>.<digit><digit>` back as hundredths. */
  function ParseFixed2(s: string): Option<nat>
  {
    if |s| >= 4 && s[|s| - 3] == '.' && IsDigit(s[|s| - 2]) && IsDigit(s[|s| - 1]) then
      match ParseNat(s[..|s| - 3])
      case Some(w) => Some(w * 100 + DigitValue(s[|s| - 2]) * 10 + DigitValue(s[|s| - 1]))
      case None => None
    else None
  }

  /** The two-decimal numeral reads back as the number it was made from. */
  lemma ParseFixed2OfFixed2(n: nat)
    ensures ParseFixed2(Fixed2(n)) == Some(n)
  {
    var a, d1, d2 := n / 100, n / 10 % 10, n % 10;
    var w, s := Dec(a), Fixed2(n);
    assert s == w + ['.', DigitChar(d1), DigitChar(d2)];
    assert s[..|s| - 3] == w;
    ParseNatOfDec(a);
    assert DigitValue(DigitChar(d1)) == d1 && DigitValue(DigitChar(d2)) == d2;
    DecimalPlaces(n);
  }

  lemma DecimalPlaces(n: nat)
    ensures n / 100 * 100 + n / 10 % 10 * 10 + n % 10 == n
  {
    var q, r := n / 10, n % 10;
    assert n == 10 * q + r;
    var q1, r1 := q / 10, q % 10;
    assert q == 10 * q1 + r1;
    assert n == 100 * q1 + (10 * r1 + r);
    assert 0 <= 10 * r1 + r < 100;
    assert n / 100 == q1;
  }

  /** `toFixed(2)` on two sample sizes and on an exact tie (128 bytes are 12.5 hundredths). */
  lemma FormatKBSamples()
    ensures FormatKB(200) == "0.20"
    ensures FormatKB(2048) == "2.00"
    ensures FormatKB(128) == "0.13"
  {
    assert Hundredths(200) == 20 && Hundredths(2048) == 200 && Hundredths(128) == 13;
    assert Dec(0) == "0" && Dec(2) == "2";
  }

  // ----- the two text layouts -----

  datatype Format = Markdown | Csv

  /** The fixed lines that open each report. */
  function HeaderLines(f: Format): seq<string>
  {
    match f
    case Markdown => ["### Vite Plugin Source Collector", "", "| # | File Name | Size (KB) |", "| --- | --- | --- |"]
    case Csv => ["No,File Name,Size (KB)", "---,---,---"]
  }

  /** The line written for the path at 1-based position `index`. */
  function RowLine(f: Format, index: nat, path: string, bytes: nat): string
  {
    match f
    case Markdown => "| " + Dec(index) + " | " + path + " | " + FormatKB(bytes) + " |"
    case Csv => Dec(index) + "," + path + "," + FormatKB(bytes)
  }

  /** One line per path, numbered from 1 in order. */
  function Rows(f: Format, ps: seq<string>, fs: Snapshot): seq<string>
    requires AllExist(ps, fs)
  {
    if ps == [] then []
    else Rows(f, ps[..|ps| - 1], fs) + [RowLine(f, |ps|, ps[|ps| - 1], fs.files[ps[|ps| - 1]].size)]
  }

  /** The whole text a writer produces for the collected paths `ps`. */
  function ReportText(f: Format, ps: seq<string>, fs: Snapshot): string
    requires AllExist(ps, fs)
  {
    Unlines(HeaderLines(f) + Rows(f, ps, fs))
  }

  lemma {:induction false} RowsAt(f: Format, ps: seq<string>, fs: Snapshot)
    requires AllExist(ps, fs)
    ensures |Rows(f, ps, fs)| == |ps|
    ensures forall k :: 0 <= k < |ps| ==>
      Rows(f, ps, fs)[k] == RowLine(f, k + 1, ps[k], fs.files[ps[k]].size)
  {
    if ps != [] {
      var pre := ps[..|ps| - 1];
      RowsAt(f, pre, fs);
      var rows := Rows(f, ps, fs);
      assert rows == Rows(f, pre, fs) + [RowLine(f, |ps|, ps[|ps| - 1], fs.files[ps[|ps| - 1]].size)];
      forall k | 0 <= k < |ps|
        ensures rows[k] == RowLine(f, k + 1, ps[k], fs.files[ps[k]].size)
      {
        if k < |pre| {
          assert pre[k] == ps[k];
        }
      }
    }
  }

  lemma ReportTextAppend(f: Format, ps: seq<string>, p: string, fs: Snapshot)
    requires AllExist(ps + [p], fs)
    ensures AllExist(ps, fs)
    ensures ReportText(f, ps + [p], fs)
         == ReportText(f, ps, fs) + RowLine(f, |ps| + 1, p, fs.files[p].size) + "\n"
  {
    assert (ps + [p])[..|ps|] == ps;
    var h, rows := HeaderLines(f), Rows(f, ps, fs);
    var line := RowLine(f, |ps| + 1, p, fs.files[p].size);
    assert h + (rows + [line]) == (h + rows) + [line];
    UnlinesAppend(h + rows, line);
  }

  lemma MarkdownHeaderText(fs: Snapshot)
    ensures ReportText(Markdown, [], fs)
         == "### Vite Plugin Source Collector\n\n" + "| # | File Name | Size (KB) |\n" + "| --- | --- | --- |\n"
  {
    var h := HeaderLines(Markdown);
    assert h + Rows(Markdown, [], fs) == h;
    assert h[1..] == ["", "| # | File Name | Size (KB) |", "| --- | --- | --- |"];
    assert h[1..][1..] == ["| # | File Name | Size (KB) |", "| --- | --- | --- |"];
    assert h[1..][1..][1..] == ["| --- | --- | --- |"];
    assert h[1..][1..][1..][1..] == [];
  }

  lemma CsvHeaderText(fs: Snapshot)
    ensures ReportText(Csv, [], fs) == "No,File Name,Size (KB)\n" + "---,---,---\n"
  {
    var h := HeaderLines(Csv);
    assert h + Rows(Csv, [], fs) == h;
    assert h[1..] == ["---,---,---"];
    assert h[1..][1..] == [];
  }

  lemma MarkdownRowText(c: string, index: nat, path: string, bytes: nat)
    ensures c + "| " + Dec(index) + " | " + path + " | " + FormatKB(bytes) + " |\n"
         == c + RowLine(Markdown, index, path, bytes) + "\n"
  {
  }

  lemma CsvRowText(c: string, index: nat, path: string, bytes: nat)
    ensures c + Dec(index) + "," + path + "," + FormatKB(bytes) + "\n"
         == c + RowLine(Csv, index, path, bytes) + "\n"
  {
  }

  // ----- the writers -----

  /** What a writer produces, or the first path whose stat failed. */
  datatype Outcome<T> = Ok(value: T) | StatError(path: string)

  /** `p` is the first path of `ps` that the snapshot lacks. */
  predicate FirstMissing(ps: seq<string>, fs: Snapshot, p: string)
  {
    exists k :: 0 <= k < |ps| && ps[k] == p && p !in fs.files && AllExist(ps[..k], fs)
  }

  /** `generateMarkdownFile` */
  method GenerateMarkdownFile(preserved: PathSet, fs: Snapshot) returns (out: Outcome<string>)
    ensures AllExist(preserved.elems, fs) ==> out == Ok(ReportText(Markdown, preserved.elems, fs))
    ensures !AllExist(preserved.elems, fs) ==>
      out.StatError? && FirstMissing(preserved.elems, fs, out.path)
  {
    var content := "### Vite Plugin Source Collector\n\n";
    content := content + "| # | File Name | Size (KB) |\n";
    content := content + "| --- | --- | --- |\n";
    MarkdownHeaderText(fs);

    var ps := preserved.elems;
    var index := 1;
    var i := 0;
    while i < |ps|
      invariant 0 <= i <= |ps| && index == i + 1
      invariant AllExist(ps[..i], fs)
      invariant content == ReportText(Markdown, ps[..i], fs)
    {
      var filePath := ps[i];
      if filePath !in fs.files {
        return StatError(filePath);
      }
      var size := fs.files[filePath].size;
      assert ps[..i + 1] == ps[..i] + [filePath];
      ReportTextAppend(Markdown, ps[..i], filePath, fs);
      MarkdownRowText(content, index, filePath, size);
      content := content + "| " + Dec(index) + " | " + filePath + " | " + FormatKB(size) + " |\n";
      index := index + 1;
      i := i + 1;
    }
    assert ps[..i] == ps;
    out := Ok(content);
  }

  /** `generateCSVFile` */
  method GenerateCsvFile(preserved: PathSet, fs: Snapshot) returns (out: Outcome<string>)
    ensures AllExist(preserved.elems, fs) ==> out == Ok(ReportText(Csv, preserved.elems, fs))
    ensures !AllExist(preserved.elems, fs) ==>
      out.StatError? && FirstMissing(preserved.elems, fs, out.path)
  {
    var content := "No,File Name,Size (KB)\n";
    content := content + "---,---,---\n";
    CsvHeaderText(fs);

    var ps := preserved.elems;
    var index := 1;
    var i := 0;
    while i < |ps|
      invariant 0 <= i <= |ps| && index == i + 1
      invariant AllExist(ps[..i], fs)
      invariant content == ReportText(Csv, ps[..i], fs)
    {
      var filePath := ps[i];
      if filePath !in fs.files {
        return StatError(filePath);
      }
      var size := fs.files[filePath].size;
      assert ps[..i + 1] == ps[..i] + [filePath];
      ReportTextAppend(Csv, ps[..i], filePath, fs);
      CsvRowText(content, index, filePath, size);
      content := content + Dec(index) + "," + filePath + "," + FormatKB(size) + "\n";
      index := index + 1;
      i := i + 1;
    }
    assert ps[..i] == ps;
    out := Ok(content);
  }

  /** The record `generateJSONFile` serialises: each collected path mapped
      to its size in kilobytes. */
  function JsonRecord(ps: seq<string>, fs: Snapshot): (m: map<string, real>)
    requires AllExist(ps, fs)
    ensures m.Keys == set p | p in ps
    ensures forall p :: p in m ==> m[p] == Kb(fs.files[p].size)
  {
    map p | p in ps :: Kb(fs.files[p].size)
  }

  /** `generateJSONFile` */
  method GenerateJsonFile(preserved: PathSet, fs: Snapshot) returns (out: Outcome<map<string, real>>)
    ensures AllExist(preserved.elems, fs) ==> out == Ok(JsonRecord(preserved.elems, fs))
    ensures !AllExist(preserved.elems, fs) ==>
      out.StatError? && FirstMissing(preserved.elems, fs, out.path)
  {
    var content: map<string, real> := map[];
    var ps := preserved.elems;
    var i := 0;
    while i < |ps|
      invariant 0 <= i <= |ps|
      invariant AllExist(ps[..i], fs)
      invariant content == JsonRecord(ps[..i], fs)
    {
      var filePath := ps[i];
      if filePath !in fs.files {
        return StatError(filePath);
      }
      var size := Kb(fs.files[filePath].size);
      assert ps[..i + 1] == ps[..i] + [filePath];
      content := content[filePath := size];
      i := i + 1;
    }
    assert ps[..i] == ps;
    out := Ok(content);
  }

  // ----- reading a text report back -----

  /** A parsed data row: index, path and size in hundredths of a kilobyte. */
  datatype Row = Row(index: nat, path: string, hundredths: nat)

  predicate Padded(x: string)
  {
    |x| >= 2 && x[0] == ' ' && x[|x| - 1] == ' '
  }

  function Unpad(x: string): string
    requires Padded(x)
  {
    x[1..|x| - 1]
  }

  function ParseRow(f: Format, line: string): Option<Row>
  {
    match f
    case Csv =>
      var cells := SplitOn(line, ',');
      if |cells| != 3 then None
      else (match (ParseNat(cells[0]), ParseFixed2(cells[2]))
            case (Some(i), Some(h)) => Some(Row(i, cells[1], h))
            case _ => None)
    case Markdown =>
      var cells := SplitOn(line, '|');
      if |cells| != 5 || cells[0] != "" || cells[4] != ""
         || !Padded(cells[1]) || !Padded(cells[2]) || !Padded(cells[3]) then None
      else (match (ParseNat(Unpad(cells[1])), ParseFixed2(Unpad(cells[3])))
            case (Some(i), Some(h)) => Some(Row(i, Unpad(cells[2]), h))
            case _ => None)
  }

  function ParseRows(f: Format, lines: seq<string>): Option<seq<Row>>
  {
    if lines == [] then Some([])
    else match (ParseRow(f, lines[0]), ParseRows(f, lines[1..]))
         case (Some(r), Some(rs)) => Some([r] + rs)
         case _ => None
  }

  /** Reads a report: the header lines, one data row per line, and nothing
      after the last newline. */
  function ParseReport(f: Format, text: string): Option<seq<Row>>
  {
    var lines := SplitOn(text, '\n');
    var h := HeaderLines(f);
    if |lines| > |h| && lines[..|h|] == h && lines[|lines| - 1] == "" then
      ParseRows(f, lines[|h|..|lines| - 1])
    else None
  }

  /** The rows a report for `ps` should hold: indices 1..n in collection
      order, each path with its rounded size. */
  function ExpectedRows(ps: seq<string>, fs: Snapshot): (rows: seq<Row>)
    requires AllExist(ps, fs)
    ensures |rows| == |ps|
  {
    if ps == [] then []
    else ExpectedRows(ps[..|ps| - 1], fs) + [Row(|ps|, ps[|ps| - 1], Hundredths(fs.files[ps[|ps| - 1]].size))]
  }

  lemma {:induction false} ExpectedRowsAt(ps: seq<string>, fs: Snapshot, k: nat)
    requires AllExist(ps, fs) && k < |ps|
    ensures ExpectedRows(ps, fs)[k] == Row(k + 1, ps[k], Hundredths(fs.files[ps[k]].size))
  {
    if k < |ps| - 1 {
      var pre := ps[..|ps| - 1];
      ExpectedRowsAt(pre, fs, k);
    }
  }

  /** A path the layout can carry without escaping: no newline, and no
      cell separator of the format. */
  predicate Plain(f: Format, path: string)
  {
    '\n' !in path && (match f case Csv => ',' !in path case Markdown => '|' !in path)
  }

  lemma DigitsLack(s: string, c: char)
    requires AllDigits(s) && !IsDigit(c)
    ensures c !in s
  {
  }

  lemma Fixed2Lacks(n: nat, c: char)
    requires !IsDigit(c) && c != '.'
    ensures c !in Fixed2(n)
  {
    DigitsLack(Dec(n / 100), c);
  }

  lemma RowLineLacksNewline(f: Format, index: nat, path: string, bytes: nat)
    requires Plain(f, path)
    ensures '\n' !in RowLine(f, index, path, bytes)
  {
    DigitsLack(Dec(index), '\n');
    Fixed2Lacks(Hundredths(bytes), '\n');
  }

  /** A data line reads back as the row it was written from. */
  lemma ParseRowOfRowLine(f: Format, index: nat, path: string, bytes: nat)
    requires Plain(f, path)
    ensures ParseRow(f, RowLine(f, index, path, bytes)) == Some(Row(index, path, Hundredths(bytes)))
  {
    ParseNatOfDec(index);
    ParseFixed2OfFixed2(Hundredths(bytes));
    match f
    case Csv => CsvCells(index, path, bytes);
    case Markdown => MarkdownCells(index, path, bytes);
  }

  lemma CsvCells(index: nat, path: string, bytes: nat)
    requires ',' !in path
    ensures SplitOn(RowLine(Csv, index, path, bytes), ',') == [Dec(index), path, FormatKB(bytes)]
  {
    var d, s := Dec(index), FormatKB(bytes);
    DigitsLack(d, ',');
    Fixed2Lacks(Hundredths(bytes), ',');
    var cells := [d, path, s];
    assert cells[1..] == [path, s] && cells[1..][1..] == [s];
    assert JoinWith(cells[1..], ',') == path + [','] + s;
    assert JoinWith(cells, ',') == RowLine(Csv, index, path, bytes);
    SplitJoin(cells, ',');
  }

  lemma MarkdownCells(index: nat, path: string, bytes: nat)
    requires '|' !in path
    ensures var cells := SplitOn(RowLine(Markdown, index, path, bytes), '|');
      |cells| == 5 && cells[0] == "" && cells[4] == "" &&
      Padded(cells[1]) && Padded(cells[2]) && Padded(cells[3]) &&
      Unpad(cells[1]) == Dec(index) && Unpad(cells[2]) == path && Unpad(cells[3]) == FormatKB(bytes)
  {
    var d, s := Dec(index), FormatKB(bytes);
    DigitsLack(d, '|');
    Fixed2Lacks(Hundredths(bytes), '|');
    PadCell(d, '|');
    PadCell(path, '|');
    PadCell(s, '|');
    var cells := ["", " " + d + " ", " " + path + " ", " " + s + " ", ""];
    MarkdownJoin(d, path, s);
    SplitJoin(cells, '|');
  }

  /** A cell padded with one space on each side. */
  lemma PadCell(x: string, sep: char)
    requires sep != ' ' && sep !in x
    ensures Padded(" " + x + " ") && Unpad(" " + x + " ") == x && sep !in " " + x + " "
  {
    assert (" " + x + " ")[1..|x| + 1] == x;
  }

  lemma MarkdownJoin(d: string, path: string, s: string)
    ensures JoinWith(["", " " + d + " ", " " + path + " ", " " + s + " ", ""], '|')
         == "| " + d + " | " + path + " | " + s + " |"
  {
    var c1, c2, c3 := " " + d + " ", " " + path + " ", " " + s + " ";
    var cells := ["", c1, c2, c3, ""];
    assert cells[1..] == [c1, c2, c3, ""];
    assert cells[1..][1..] == [c2, c3, ""];
    assert cells[1..][1..][1..] == [c3, ""];
    assert cells[1..][1..][1..][1..] == [""];
    assert JoinWith([c3, ""], '|') == c3 + "|";
    assert JoinWith([c2, c3, ""], '|') == c2 + "|" + c3 + "|";
    assert JoinWith([c1, c2, c3, ""], '|') == c1 + "|" + c2 + "|" + c3 + "|";
    assert "|" + c1 + "|" + c2 + "|" + c3 + "|" == "| " + d + " | " + path + " | " + s + " |";
  }

  lemma {:induction false} ParseRowsAll(f: Format, lines: seq<string>, rows: seq<Row>)
    requires |lines| == |rows|
    requires forall k :: 0 <= k < |lines| ==> ParseRow(f, lines[k]) == Some(rows[k])
    ensures ParseRows(f, lines) == Some(rows)
  {
    if lines != [] {
      ParseRowsAll(f, lines[1..], rows[1..]);
      assert rows == [rows[0]] + rows[1..];
    }
  }

  lemma HeaderLinesLackNewline(f: Format)
    ensures forall k :: 0 <= k < |HeaderLines(f)| ==> '\n' !in HeaderLines(f)[k]
  {
    match f
    case Markdown =>
      TitleLacksNewline();
      MarkdownColumnsLackNewline();
      MarkdownRuleLacksNewline();
    case Csv =>
      CsvColumnsLackNewline();
      CsvRuleLacksNewline();
  }

  lemma TitleLacksNewline()
    ensures '\n' !in "### Vite Plugin Source Collector"
  {
  }

  lemma MarkdownColumnsLackNewline()
    ensures '\n' !in "| # | File Name | Size (KB) |"
  {
  }

  lemma MarkdownRuleLacksNewline()
    ensures '\n' !in "| --- | --- | --- |"
  {
  }

  lemma CsvColumnsLackNewline()
    ensures '\n' !in "No,File Name,Size (KB)"
  {
  }

  lemma CsvRuleLacksNewline()
    ensures '\n' !in "---,---,---"
  {
  }

  /** A report for paths without newlines splits into its header lines,
      one line per path, and the empty text after the final newline. */
  lemma ReportLines(f: Format, ps: seq<string>, fs: Snapshot)
    requires AllExist(ps, fs)
    requires forall p :: p in ps ==> Plain(f, p)
    ensures SplitOn(ReportText(f, ps, fs), '\n') == HeaderLines(f) + Rows(f, ps, fs) + [""]
  {
    var h, rows := HeaderLines(f), Rows(f, ps, fs);
    RowsAt(f, ps, fs);
    HeaderLinesLackNewline(f);
    forall k | 0 <= k < |h + rows|
      ensures '\n' !in (h + rows)[k]
    {
      if k >= |h| {
        RowLineLacksNewline(f, k - |h| + 1, ps[k - |h|], fs.files[ps[k - |h|]].size);
      }
    }
    SplitUnlines(h + rows);
  }

  /** Each data line reads back as its expected row. */
  lemma RowsParse(f: Format, ps: seq<string>, fs: Snapshot)
    requires AllExist(ps, fs)
    requires forall p :: p in ps ==> Plain(f, p)
    ensures ParseRows(f, Rows(f, ps, fs)) == Some(ExpectedRows(ps, fs))
  {
    var rows := Rows(f, ps, fs);
    RowsAt(f, ps, fs);
    forall k | 0 <= k < |rows|
      ensures ParseRow(f, rows[k]) == Some(ExpectedRows(ps, fs)[k])
    {
      ParseRowOfRowLine(f, k + 1, ps[k], fs.files[ps[k]].size);
      ExpectedRowsAt(ps, fs, k);
    }
    ParseRowsAll(f, rows, ExpectedRows(ps, fs));
  }

  /** Round trip: a report for paths the layout can carry parses back to its
      header and exactly one row per collected path, numbered 1..n in
      collection order, with each size rounded to hundredths of a kilobyte. */
  lemma ReportRoundTrip(f: Format, ps: seq<string>, fs: Snapshot)
    requires AllExist(ps, fs)
    requires forall p :: p in ps ==> Plain(f, p)
    ensures ParseReport(f, ReportText(f, ps, fs)) == Some(ExpectedRows(ps, fs))
  {
    var h, rows := HeaderLines(f), Rows(f, ps, fs);
    ReportLines(f, ps, fs);
    RowsParse(f, ps, fs);
    var lines := h + rows + [""];
    assert lines[..|h|] == h;
    assert lines[|h|..|lines| - 1] == rows;
  }

  /** The CSV writer does not quote: a comma in a path splits its row into
      four cells, and the row no longer reads back. */
  lemma CsvCommaBreaksRow()
    ensures ParseRow(Csv, RowLine(Csv, 1, "a,b.ts", 0)) == None
  {
    var cells := ["1", "a", "b.ts", "0.00"];
    assert Dec(1) == "1" && Dec(0) == "0";
    assert FormatKB(0) == "0.00";
    assert JoinWith(cells, ',') == RowLine(Csv, 1, "a,b.ts", 0) by {
      assert cells[1..] == ["a", "b.ts", "0.00"];
      assert cells[1..][1..] == ["b.ts", "0.00"];
      assert cells[1..][1..][1..] == ["0.00"];
    }
    SplitJoin(cells, ',');
  }
}
