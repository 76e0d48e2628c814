/** The rows the `/download-pmi-excel` handler hands to the worksheet: a
    header row of the five column labels and the update-date label, then
    one row per extracted row with the publication date appended. Workbook
    construction, styling and streaming are outside the model; the
    worksheet is the sequence of rows passed to `addRow`, in call order. */
module PmiSheet {
  import opened JsString
  import opened PmiParser

  /** The label of the sixth column. */
  const DateLabel: string := "Дата обновления"

  /** The six fields of a data row: the five extracted fields, then the date. */
  const SheetWidth: nat := |Headers| + 1

  /** Lines 64-69 of the handler: one `addRow` for the header row, then one
      per extracted row, each row being the extracted fields followed by the
      date. */
  method BuildSheetRows(data: PmiData) returns (sheet: seq<seq<string>>)
    ensures |sheet| == |data.rows| + 1
    ensures sheet[0] == data.headers + [DateLabel]
    ensures forall k :: 0 <= k < |data.rows| ==> sheet[k + 1] == data.rows[k] + [data.date]
    ensures WellFormed(data) ==> forall r :: 1 <= r < |sheet| ==>
      |sheet[r]| == SheetWidth && sheet[r][|Headers|] == data.date && sheet[r][..|Headers|] == data.rows[r - 1]
  {
    sheet := [data.headers + [DateLabel]];
    for k := 0 to |data.rows|
      invariant |sheet| == k + 1
      invariant sheet[0] == data.headers + [DateLabel]
      invariant forall j :: 0 <= j < k ==> sheet[j + 1] == data.rows[j] + [data.date]
    {
      sheet := sheet + [data.rows[k] + [data.date]];
    }
    if WellFormed(data) {
      forall r | 1 <= r < |sheet|
        ensures |sheet[r]| == SheetWidth && sheet[r][|Headers|] == data.date && sheet[r][..|Headers|] == data.rows[r - 1]
      {
        assert sheet[(r - 1) + 1] == data.rows[r - 1] + [data.date];
      }
    }
  }

  /** The whole `/download-pmi-excel` path from the table's text and the date
      paragraph's text to the worksheet rows: a header row of six labels,
      then one six-field row per row `ExtractRows` takes from the table's
      tokens, with the trimmed date last; a table too short for a block
      gives a header-only sheet. */
  method DownloadRows(tableText: string, dateText: string) returns (sheet: seq<seq<string>>)
    ensures |sheet| == RowCount(|Tokenize(tableText)|) + 1
    ensures sheet[0] == Headers + [DateLabel] && |sheet[0]| == SheetWidth
    ensures |Tokenize(tableText)| <= Preamble + BlockSize ==> sheet == [Headers + [DateLabel]]
    ensures forall r :: 1 <= r < |sheet| ==>
      && |sheet[r]| == SheetWidth
      && sheet[r][..|Headers|] == ExtractRows(Tokenize(tableText))[r - 1]
      && sheet[r][|Headers|] == Trim(dateText)
  {
    var data := ParsePmiData(tableText, dateText);
    sheet := BuildSheetRows(data);
  }
}
