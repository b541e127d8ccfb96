/** `load_data`: an uploaded file is read as CSV when the text after the last dot of its
    name is exactly `csv`, and as an Excel workbook otherwise; without an upload there is no
    table. The readers themselves are not modelled, only which one is chosen. */
module Loader {
  import opened Wrappers
  import opened Strings

  datatype Reader = ReadCsv | ReadExcel

  /** The last piece of the name split at dots: everything after the last dot, or the whole
      name when it has none. */
  function Extension(name: string): string
  {
    var parts := Split(name, '.');
    parts[|parts| - 1]
  }

  /** The reader chosen for an uploaded file name: the comparison is case-sensitive, and any
      extension other than `csv` (including none at all) goes to the Excel reader. */
  function Dispatch(name: string): Reader
  {
    if Extension(name) == "csv" then ReadCsv else ReadExcel
  }

  /** The whole of `load_data`: `upload` is the name of the uploaded file, if any. */
  function LoadData(upload: Option<string>): (r: Option<Reader>)
    ensures r.None? <==> upload.None?
  {
    match upload
    case None => None
    case Some(name) => Some(Dispatch(name))
  }

  /** The extension is a dot-free suffix of the name, and it is the whole name unless a dot
      precedes it. */
  lemma ExtensionIsSuffix(name: string)
    ensures var e := Extension(name);
      && '.' !in e
      && |e| <= |name| && e == name[|name| - |e|..]
      && (|e| < |name| ==> name[|name| - |e| - 1] == '.')
      && ('.' !in name ==> e == name)
  {
    SplitLast(name, '.');
    SplitPieces(name, '.');
  }

  /** For `stem + "." + ext` with a dot-free `ext`, the extension is `ext`, whatever the stem holds. */
  lemma ExtensionOfDotted(stem: string, ext: string)
    requires '.' !in ext
    ensures Extension(stem + "." + ext) == ext
  {
    var s := stem + "." + ext;
    var e := Extension(s);
    ExtensionIsSuffix(s);
    assert s[|stem|] == '.';
    assert e == s[|s| - |ext|..];
    assert s[|s| - |ext|..] == ext;
  }

  /** A name with an extension is read as CSV exactly when that extension is `csv`. */
  lemma CsvIff(stem: string, ext: string)
    requires '.' !in ext
    ensures LoadData(Some(stem + "." + ext)) == Some(ReadCsv) <==> ext == "csv"
    ensures LoadData(Some(stem + "." + ext)) == Some(ReadExcel) <==> ext != "csv"
  {
    ExtensionOfDotted(stem, ext);
  }

  /** The test is on the text alone: an upper-case `CSV` goes to the Excel reader and the
      last of several extensions decides. */
  lemma DispatchDotted()
    ensures Dispatch("data.CSV") == ReadExcel
    ensures Dispatch("report.csv.xlsx") == ReadExcel
    ensures Dispatch("archive.tar.csv") == ReadCsv
  {
    assert "data.CSV" == "data" + "." + "CSV";
    ExtensionOfDotted("data", "CSV");
    assert "report.csv.xlsx" == "report.csv" + "." + "xlsx";
    ExtensionOfDotted("report.csv", "xlsx");
    assert "archive.tar.csv" == "archive.tar" + "." + "csv";
    ExtensionOfDotted("archive.tar", "csv");
  }

  /** A name without any dot is its own extension: a bare `csv` is read as CSV, any other
      dot-free name as Excel. */
  lemma DispatchUndotted(name: string)
    requires '.' !in name
    ensures Dispatch(name) == ReadCsv <==> name == "csv"
  {
    ExtensionIsSuffix(name);
  }
}
