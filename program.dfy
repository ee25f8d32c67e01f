/**
 * `Program.LookForDoubles` as a whole: the first pass over `Templates`, the
 * reference set, its size line, and the second pass, all writing into a
 * freshly created `duplicates.txt`.
 */
module Program {
  import opened Wrappers
  import opened Text
  import opened Linq
  import opened ListField
  import opened Cleaning
  import opened Reports
  import opened Templates
  import opened GeneralDonts

  /**
   * Cleaning keeps the display name, so when the first query reads every
   * row, the second query reads every cleaned row as well.
   */
  lemma {:induction false} CleanedRowsReadable(rows: seq<TemplateRow>)
    requires ReadablePrefix(rows, CleanQuery) == |rows|
    ensures ReadablePrefix(CleanRows(rows), OverlapQuery) == |rows|
  {
    if rows != [] {
      CleanedRowsReadable(rows[1..]);
      CleanRowSpec(rows[0]);
      assert CleanRows(rows)[0] == CleanRow(rows[0]);
      assert CleanRows(rows)[1..] == CleanRows(rows[1..]);
    }
  }

  /**
   * Once a row has been cleaned, each overlapping entry in it is reported
   * once: no two reported entries are equal ignoring case.
   */
  lemma CleanedOverlapsOnce(r: TemplateRow, keys: set<string>)
    ensures NoDuplicates(OverlapEntries(Feld(CleanRow(r)), keys), OrdinalIgnoreCase)
  {
    CleanRowSpec(r);
    CleanedValueHasNoDuplicates(Feld(r));
    OverlapEntriesSpec(Feld(CleanRow(r)), keys);
    SubsequenceNoDuplicates(OverlapEntries(Feld(CleanRow(r)), keys), Decode(Feld(CleanRow(r))), OrdinalIgnoreCase);
  }

  /**
   * The report of a run that reads every row: the lines of the first pass,
   * the size of the reference set, then the overlaps of the cleaned rows.
   */
  function RunReport(rows: seq<TemplateRow>, column: seq<Option<string>>): seq<ReportLine>
  {
    var keys := ReferenceKeys(column);
    PassALog(rows) + [Loaded(|keys|)] + PassBLog(CleanRows(rows), keys)
  }

  /** A complete run writes one clean-up line per rewritten row, and no other. */
  lemma RunReportCleanedLines(rows: seq<TemplateRow>, column: seq<Option<string>>, e: ReportLine)
    requires e.Cleaned?
    ensures e in RunReport(rows, column) <==>
      exists i :: 0 <= i < |rows| && NeedsWrite(rows[i]) &&
        e == Cleaned(IntToString(rows[i].templateId), Clean(Feld(rows[i])))
  {
    var keys := ReferenceKeys(column);
    PassALogCleanedLines(rows, e);
    PassBLogLines(CleanRows(rows), keys, e);
  }

  /** A complete run writes exactly one size line, with the size of the reference set. */
  lemma RunReportLoadedLine(rows: seq<TemplateRow>, column: seq<Option<string>>, e: ReportLine)
    requires e.Loaded?
    ensures e in RunReport(rows, column) <==> e.count == |ReferenceKeys(column)|
  {
    var keys := ReferenceKeys(column);
    if e in PassALog(rows) {
      PassALogKinds(rows, e);
    }
    PassBLogLines(CleanRows(rows), keys, e);
  }

  /**
   * A complete run writes one overlap line per row whose cleaned value has
   * entries in the reference set, and no other.
   */
  lemma RunReportOverlapLines(rows: seq<TemplateRow>, column: seq<Option<string>>, e: ReportLine)
    requires e.Overlaps?
    ensures e in RunReport(rows, column) <==>
      exists i :: 0 <= i < |rows| && OverlapEntries(Clean(Feld(rows[i])), ReferenceKeys(column)) != [] &&
        e == Overlaps(DisplayName(rows[i]).GetOr(""), OverlapEntries(Clean(Feld(rows[i])), ReferenceKeys(column)))
  {
    var keys := ReferenceKeys(column);
    if e in PassALog(rows) {
      PassALogKinds(rows, e);
    }
    PassBLogLines(CleanRows(rows), keys, e);
    forall i | 0 <= i < |rows|
      ensures Feld(CleanRows(rows)[i]) == Clean(Feld(rows[i]))
      ensures DisplayName(CleanRows(rows)[i]) == DisplayName(rows[i])
    {
      CleanRowSpec(rows[i]);
    }
  }

  /**
   * The part of `LookForDoubles` after the first loop: load the reference
   * set, write its size, then report the overlaps of every row.
   */
  method ReportReferences(table: TemplatesTable, column: seq<Option<string>>, out: ReportFile)
    requires ReadablePrefix(table.rows, OverlapQuery) == |table.rows|
    modifies out
    ensures out.entries == old(out.entries) + [Loaded(|ReferenceKeys(column)|)] + PassBLog(table.rows, ReferenceKeys(column))
  {
    var general := LoadGeneralDonts(column);
    out.WriteLine(Loaded(general.Count()));
    var ok := FindOverlaps(table, general, out);
    assert table.rows[..|table.rows|] == table.rows;
  }

  /**
   * `LookForDoubles(connection)` over the `Templates` rows and the
   * `GeneralDonts.Template` column. A row the first query cannot read ends
   * the run with the exception, after the rows before it were handled; `ok`
   * says whether the run went through.
   */
  method LookForDoubles(table: TemplatesTable, column: seq<Option<string>>) returns (ok: bool, out: ReportFile)
    requires table.Valid()
    modifies table
    ensures fresh(out)
    ensures table.Valid()
    ensures var rows0 := old(table.rows);
      var n := ReadablePrefix(rows0, CleanQuery);
      && ok == (n == |rows0|)
      && table.rows == CleanRows(rows0[..n]) + rows0[n..]
      && out.entries == if ok then RunReport(rows0, column) else PassALog(rows0[..n])
  {
    ghost var rows0 := table.rows;
    out := new ReportFile();
    ok := CleanDuplicates(table, out);
    if !ok {
      assert [] + PassALog(rows0[..ReadablePrefix(rows0, CleanQuery)]) == PassALog(rows0[..ReadablePrefix(rows0, CleanQuery)]);
      return;
    }
    assert rows0[..|rows0|] == rows0;
    assert table.rows == CleanRows(rows0);
    assert out.entries == PassALog(rows0);
    CleanedRowsReadable(rows0);
    ReportReferences(table, column, out);
  }
}
