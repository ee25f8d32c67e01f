/**
 * The `Templates` table and the first pass of `LookForDoubles`: every row's
 * `Donts` field is checked for duplicates, and rewritten in its cleaned form
 * when that differs from what is stored.
 */
module Templates {
  import opened Wrappers
  import opened Text
  import opened Linq
  import opened ListField
  import opened Cleaning
  import opened Reports

  /** A row of `Templates`, with the columns the clean-up reads. */
  datatype TemplateRow = TemplateRow(
    templateId: int,
    name: Option<string>,
    template: Option<string>,
    donts: Option<string>)

  /**
   * `CASE WHEN Name IS NOT NULL AND Name <> '' THEN Name ELSE Template END`:
   * null exactly when there is no usable name and no template.
   */
  function DisplayName(r: TemplateRow): (d: Option<string>)
    ensures d.None? <==> (r.name.None? || r.name.value == "") && r.template.None?
    ensures r.name.Some? && r.name.value != "" ==> d == r.name
    ensures (r.name.None? || r.name.value == "") ==> d == r.template
  {
    if r.name.Some? && r.name.value != "" then r.name else r.template
  }

  const Int32Min: int := -0x8000_0000
  const Int32Max: int := 0x7FFF_FFFF

  /** `GetInt32` succeeds only for a value that fits in 32 bits. */
  predicate IsInt32(n: int) {
    Int32Min <= n <= Int32Max
  }

  /** The two `SELECT`s over `Templates`, which read different columns. */
  datatype Query =
    | CleanQuery     // DisplayName, Donts, TemplateID
    | OverlapQuery   // DisplayName, Donts
  {
    /**
     * Reading a row succeeds: `GetString(0)` needs a non-null display name,
     * and the first query's `GetInt32(2)` an identifier that fits in 32 bits.
     */
    predicate Reads(r: TemplateRow) {
      && DisplayName(r).Some?
      && (this == CleanQuery ==> IsInt32(r.templateId))
    }
  }

  /** The number of rows a query reads before the first row it cannot read. */
  function ReadablePrefix(rows: seq<TemplateRow>, q: Query): (n: nat)
    ensures n <= |rows|
  {
    if rows == [] || !q.Reads(rows[0]) then 0
    else 1 + ReadablePrefix(rows[1..], q)
  }

  /** The query reads every row before that one, and not that one. */
  lemma {:induction false} ReadablePrefixSpec(rows: seq<TemplateRow>, q: Query)
    ensures forall i :: 0 <= i < ReadablePrefix(rows, q) ==> q.Reads(rows[i])
    ensures ReadablePrefix(rows, q) < |rows| ==> !q.Reads(rows[ReadablePrefix(rows, q)])
  {
    if rows != [] && q.Reads(rows[0]) {
      ReadablePrefixSpec(rows[1..], q);
      forall i | 1 <= i < ReadablePrefix(rows, q) ensures q.Reads(rows[i]) {
        assert rows[i] == rows[1..][i - 1];
      }
    }
  }

  /** Below the prefix length, the row at `i` is read exactly when the prefix goes past it. */
  lemma {:induction false} ReadablePrefixStep(rows: seq<TemplateRow>, q: Query, i: nat)
    requires i < |rows| && i <= ReadablePrefix(rows, q)
    ensures q.Reads(rows[i]) <==> i < ReadablePrefix(rows, q)
  {
    if i > 0 {
      ReadablePrefixStep(rows[1..], q, i - 1);
      assert rows[1..][i - 1] == rows[i];
    }
  }

  /** `reader.IsDBNull(1) ? "" : reader.GetString(1)`. */
  function Feld(r: TemplateRow): string
  {
    r.donts.GetOr("")
  }

  /** The row is written: `cleanedString != feld`. */
  predicate NeedsWrite(r: TemplateRow) {
    Clean(Feld(r)) != Feld(r)
  }

  /** The row after the first pass: `Donts` set to the cleaned value when that differs. */
  function CleanRow(r: TemplateRow): TemplateRow
  {
    if NeedsWrite(r) then r.(donts := Some(Clean(Feld(r)))) else r
  }

  /**
   * After the first pass the field holds its cleaned value, no other column
   * changes, and the row is touched exactly when it was written; a null field
   * stays null.
   */
  lemma CleanRowSpec(r: TemplateRow)
    ensures Feld(CleanRow(r)) == Clean(Feld(r))
    ensures CleanRow(r).templateId == r.templateId
    ensures CleanRow(r).name == r.name && CleanRow(r).template == r.template
    ensures CleanRow(r) != r <==> NeedsWrite(r)
    ensures r.donts.None? ==> CleanRow(r) == r
  {
    if r.donts.None? {
      CleanEmpty();
    }
  }

  /**
   * After the first pass a row's field holds no two entries equal ignoring
   * case and no empty entry.
   */
  lemma CleanRowHasNoDuplicates(r: TemplateRow)
    ensures NoDuplicates(Decode(Feld(CleanRow(r))), OrdinalIgnoreCase)
    ensures "" !in Decode(Feld(CleanRow(r)))
  {
    CleanRowSpec(r);
    CleanedValueHasNoDuplicates(Feld(r));
  }

  /**
   * Running the first pass on its own result writes the row again exactly
   * when the kept entries include an empty one beside others.
   */
  lemma SecondWriteIff(r: TemplateRow)
    ensures NeedsWrite(CleanRow(r)) <==>
      ("" in CleanedTokens(Feld(r)) && |CleanedTokens(Feld(r))| != 1)
  {
    CleanRowSpec(r);
    CleanIdempotentIff(Feld(r));
  }

  function CleanRows(rows: seq<TemplateRow>): (r: seq<TemplateRow>)
    ensures |r| == |rows|
  {
    seq(|rows|, i requires 0 <= i < |rows| => CleanRow(rows[i]))
  }

  /** The duplicate report of a row, if it has repeated entries. */
  function DuplicateReport(r: TemplateRow): seq<ReportLine>
  {
    var keys := DuplicateKeys(Feld(r));
    if keys != [] then [Duplicates(DisplayName(r).GetOr(""), keys)] else []
  }

  /** The clean-up report of a row, if it is written. */
  function CleanReport(r: TemplateRow): seq<ReportLine>
  {
    if NeedsWrite(r) then [Cleaned(IntToString(r.templateId), Clean(Feld(r)))] else []
  }

  /**
   * The report lines of one row: the duplicate report, then the clean-up
   * report. (Only rows the query reads get this far, so the display name is
   * never null here.)
   */
  function RowReports(r: TemplateRow): seq<ReportLine>
  {
    DuplicateReport(r) + CleanReport(r)
  }

  /** The report lines of each row. */
  function RowReportsAll(rows: seq<TemplateRow>): (xss: seq<seq<ReportLine>>)
    ensures |xss| == |rows| && forall i :: 0 <= i < |rows| ==> xss[i] == RowReports(rows[i])
  {
    seq(|rows|, i requires 0 <= i < |rows| => RowReports(rows[i]))
  }

  /** The report lines of the first pass over `rows`, row after row. */
  function PassALog(rows: seq<TemplateRow>): seq<ReportLine>
  {
    Flatten(RowReportsAll(rows))
  }

  lemma PassALogSnoc(rows: seq<TemplateRow>, r: TemplateRow)
    ensures PassALog(rows + [r]) == PassALog(rows) + RowReports(r)
  {
    var xss := RowReportsAll(rows);
    var yss := RowReportsAll(rows + [r]);
    forall i | 0 <= i < |rows| ensures yss[i] == xss[i] {
      assert (rows + [r])[i] == rows[i];
    }
    assert yss == xss + [RowReports(r)];
    FlattenSnoc(xss, RowReports(r));
  }

  /** The clean-up line of a row is there exactly when the row is written. */
  lemma RowReportsCleaned(r: TemplateRow, e: ReportLine)
    requires e.Cleaned?
    ensures e in RowReports(r) <==> NeedsWrite(r) && e == Cleaned(IntToString(r.templateId), Clean(Feld(r)))
  {
  }

  /** The duplicate line of a row is there exactly when it has repeated entries. */
  lemma RowReportsDuplicates(r: TemplateRow, e: ReportLine)
    requires e.Duplicates?
    ensures e in RowReports(r) <==>
      DuplicateKeys(Feld(r)) != [] && e == Duplicates(DisplayName(r).GetOr(""), DuplicateKeys(Feld(r)))
  {
  }

  /**
   * A clean-up line is in the report exactly for the rows that are written,
   * naming the row's identifier and the value written.
   */
  lemma PassALogCleanedLines(rows: seq<TemplateRow>, e: ReportLine)
    requires e.Cleaned?
    ensures e in PassALog(rows) <==>
      exists i :: 0 <= i < |rows| && NeedsWrite(rows[i]) &&
        e == Cleaned(IntToString(rows[i].templateId), Clean(Feld(rows[i])))
  {
    var xss := RowReportsAll(rows);
    FlattenMember(xss, e);
    forall i | 0 <= i < |rows|
      ensures e in xss[i] <==> NeedsWrite(rows[i]) && e == Cleaned(IntToString(rows[i].templateId), Clean(Feld(rows[i])))
    {
      RowReportsCleaned(rows[i], e);
    }
  }

  /**
   * A duplicate line is in the report exactly for the rows with repeated
   * entries, naming the row's display name and the repeated entries.
   */
  lemma PassALogDuplicateLines(rows: seq<TemplateRow>, e: ReportLine)
    requires e.Duplicates?
    ensures e in PassALog(rows) <==>
      exists i :: 0 <= i < |rows| && DuplicateKeys(Feld(rows[i])) != [] &&
        e == Duplicates(DisplayName(rows[i]).GetOr(""), DuplicateKeys(Feld(rows[i])))
  {
    var xss := RowReportsAll(rows);
    FlattenMember(xss, e);
    forall i | 0 <= i < |rows|
      ensures e in xss[i] <==>
        DuplicateKeys(Feld(rows[i])) != [] && e == Duplicates(DisplayName(rows[i]).GetOr(""), DuplicateKeys(Feld(rows[i])))
    {
      RowReportsDuplicates(rows[i], e);
    }
  }

  /** The first pass writes only duplicate lines and clean-up lines. */
  lemma PassALogKinds(rows: seq<TemplateRow>, e: ReportLine)
    requires e in PassALog(rows)
    ensures e.Duplicates? || e.Cleaned?
  {
    var xss := RowReportsAll(rows);
    FlattenMember(xss, e);
    var i :| 0 <= i < |xss| && e in xss[i];
    RowReportsKinds(rows[i], e);
  }

  lemma RowReportsKinds(r: TemplateRow, e: ReportLine)
    requires e in RowReports(r)
    ensures e.Duplicates? || e.Cleaned?
  {
  }

  /** The `TemplateID` column. */
  function Ids(rows: seq<TemplateRow>): (r: seq<int>)
    ensures |r| == |rows|
  {
    seq(|rows|, i requires 0 <= i < |rows| => rows[i].templateId)
  }

  /** `TemplateID` identifies a row. */
  predicate UniqueIds(rows: seq<TemplateRow>) {
    var ids := Ids(rows);
    forall i, j :: 0 <= i < j < |ids| ==> ids[i] != ids[j]
  }

  /** `UPDATE Templates SET Donts = @val WHERE TemplateID = @id` on a sequence of rows. */
  function WithDonts(rows: seq<TemplateRow>, id: int, val: string): (r: seq<TemplateRow>)
    ensures |r| == |rows|
  {
    seq(|rows|, i requires 0 <= i < |rows| =>
      if rows[i].templateId == id then rows[i].(donts := Some(val)) else rows[i])
  }

  /** With unique identifiers the update changes the one row with that identifier, and keeps identifiers unique. */
  lemma WithDontsTouchesOneRow(rows: seq<TemplateRow>, k: int, val: string)
    requires UniqueIds(rows) && 0 <= k < |rows|
    ensures WithDonts(rows, rows[k].templateId, val) == rows[k := rows[k].(donts := Some(val))]
    ensures UniqueIds(WithDonts(rows, rows[k].templateId, val))
  {
    var r := WithDonts(rows, rows[k].templateId, val);
    forall i | 0 <= i < |rows| ensures r[i] == rows[k := rows[k].(donts := Some(val))][i] {
      if i < k {
        assert Ids(rows)[i] != Ids(rows)[k];
      } else if i > k {
        assert Ids(rows)[k] != Ids(rows)[i];
      }
    }
    assert Ids(r) == Ids(rows);
  }

  /** The update never changes an identifier. */
  lemma WithDontsKeepsIds(rows: seq<TemplateRow>, id: int, val: string)
    ensures Ids(WithDonts(rows, id, val)) == Ids(rows)
  {
  }

  /** The `Templates` table: its rows, in the order the queries return them. */
  class TemplatesTable {
    var rows: seq<TemplateRow>

    ghost predicate Valid()
      reads this
    {
      UniqueIds(rows)
    }

    constructor(initial: seq<TemplateRow>)
      requires UniqueIds(initial)
      ensures Valid() && rows == initial
    {
      rows := initial;
    }

    /** `UPDATE Templates SET Donts = @val WHERE TemplateID = @id`. */
    method SetDonts(id: int, val: string)
      requires Valid()
      modifies this
      ensures Valid()
      ensures rows == WithDonts(old(rows), id, val)
    {
      WithDontsKeepsIds(rows, id, val);
      rows := WithDonts(rows, id, val);
    }
  }

  /** One step of the first pass: row `k` cleaned, the rows after it untouched. */
  lemma CleanRowsStep(rows0: seq<TemplateRow>, k: int)
    requires 0 <= k < |rows0|
    ensures (CleanRows(rows0[..k]) + rows0[k..])[k := CleanRow(rows0[k])]
         == CleanRows(rows0[..k + 1]) + rows0[k + 1..]
  {
    var a := (CleanRows(rows0[..k]) + rows0[k..])[k := CleanRow(rows0[k])];
    var b := CleanRows(rows0[..k + 1]) + rows0[k + 1..];
    assert |a| == |b|;
    forall i | 0 <= i < |a| ensures a[i] == b[i] {
      if i < k {
        assert a[i] == CleanRow(rows0[i]) == b[i];
      } else if i > k {
        assert a[i] == rows0[i] == b[i];
      }
    }
  }

  /** Before row `k` is handled it is still as read. */
  lemma PendingRow(rows0: seq<TemplateRow>, k: int)
    requires 0 <= k < |rows0|
    ensures (CleanRows(rows0[..k]) + rows0[k..])[k] == rows0[k]
  {
    assert |CleanRows(rows0[..k])| == k;
  }

  /** Row `k` adds its own lines to the report. */
  lemma PassALogStep(rows0: seq<TemplateRow>, k: int, lines0: seq<ReportLine>)
    requires 0 <= k < |rows0|
    ensures lines0 + PassALog(rows0[..k]) + RowReports(rows0[k]) == lines0 + PassALog(rows0[..k + 1])
  {
    assert rows0[..k + 1] == rows0[..k] + [rows0[k]];
    PassALogSnoc(rows0[..k], rows0[k]);
    ConcatAssoc(lines0, PassALog(rows0[..k]), RowReports(rows0[k]));
  }

  /** What one iteration of the first pass adds to the rows and to the report. */
  lemma PassAStep(rows0: seq<TemplateRow>, k: int, lines0: seq<ReportLine>)
    requires 0 <= k < |rows0|
    ensures (CleanRows(rows0[..k]) + rows0[k..])[k] == rows0[k]
    ensures (CleanRows(rows0[..k]) + rows0[k..])[k := CleanRow(rows0[k])]
         == CleanRows(rows0[..k + 1]) + rows0[k + 1..]
    ensures lines0 + PassALog(rows0[..k]) + RowReports(rows0[k]) == lines0 + PassALog(rows0[..k + 1])
  {
    PendingRow(rows0, k);
    CleanRowsStep(rows0, k);
    PassALogStep(rows0, k, lines0);
  }

  /** Reports the repeated entries of row `r`, which the query has read. */
  method ReportDuplicates(out: ReportFile, r: TemplateRow)
    requires CleanQuery.Reads(r)
    modifies out
    ensures out.entries == old(out.entries) + DuplicateReport(r)
  {
    var displayName := DisplayName(r).value;
    var duplicates := DuplicateKeys(Feld(r));
    if duplicates != [] {
      out.WriteLine(Duplicates(displayName, duplicates));
    }
  }

  /** Writes the cleaned value of row `k` when it differs, and reports the write. */
  method WriteCleaned(table: TemplatesTable, out: ReportFile, k: int)
    requires table.Valid() && 0 <= k < |table.rows|
    modifies table, out
    ensures table.Valid()
    ensures table.rows == old(table.rows)[k := CleanRow(old(table.rows)[k])]
    ensures out.entries == old(out.entries) + CleanReport(old(table.rows)[k])
  {
    var r := table.rows[k];
    var feld := Feld(r);
    var cleanedString := Clean(feld);
    if cleanedString != feld {
      WithDontsTouchesOneRow(table.rows, k, cleanedString);
      table.SetDonts(r.templateId, cleanedString);
      out.WriteLine(Cleaned(IntToString(r.templateId), cleanedString));
    }
  }

  /**
   * The body of the first pass for row `k`, which the query has read: report
   * its duplicates, and write and report its cleaned value when that differs.
   */
  method CleanRecord(table: TemplatesTable, out: ReportFile, k: int)
    requires table.Valid() && 0 <= k < |table.rows| && CleanQuery.Reads(table.rows[k])
    modifies table, out
    ensures table.Valid()
    ensures table.rows == old(table.rows)[k := CleanRow(old(table.rows)[k])]
    ensures out.entries == old(out.entries) + RowReports(old(table.rows)[k])
  {
    var r := table.rows[k];
    ReportDuplicates(out, r);
    WriteCleaned(table, out, k);
  }

  /**
   * The first pass of `LookForDoubles`. It stops at the first row it cannot
   * read (the exception ends the program), with the rows before it processed.
   */
  method CleanDuplicates(table: TemplatesTable, out: ReportFile) returns (ok: bool)
    requires table.Valid()
    modifies table, out
    ensures table.Valid()
    ensures var n := ReadablePrefix(old(table.rows), CleanQuery);
      && ok == (n == |old(table.rows)|)
      && table.rows == CleanRows(old(table.rows)[..n]) + old(table.rows)[n..]
      && out.entries == old(out.entries) + PassALog(old(table.rows)[..n])
  {
    ghost var rows0 := table.rows;
    ghost var lines0 := out.entries;
    ghost var n := ReadablePrefix(rows0, CleanQuery);
    var i := 0;
    // the loop ends early at a row whose `GetString(0)` or `GetInt32(2)` throws
    while i < |table.rows| && CleanQuery.Reads(table.rows[i])
      invariant 0 <= i <= n
      invariant |table.rows| == |rows0|
      invariant table.rows == CleanRows(rows0[..i]) + rows0[i..]
      invariant table.Valid()
      invariant out.entries == lines0 + PassALog(rows0[..i])
    {
      PassAStep(rows0, i, lines0);
      ReadablePrefixStep(rows0, CleanQuery, i);
      CleanRecord(table, out, i);
      i := i + 1;
    }
    if i < |rows0| {
      PassAStep(rows0, i, lines0);
      ReadablePrefixStep(rows0, CleanQuery, i);
    }
    ok := i == |table.rows|;
  }
}
