/**
 * The reference set of `LookForDoubles`: the `Template` column of
 * `GeneralDonts` loaded into a case-insensitive `HashSet<string>`, and the
 * second pass over `Templates` that reports the entries of every `Donts`
 * field that are also reference values. The second pass writes nothing back.
 */
module GeneralDonts {
  import opened Wrappers
  import opened Text
  import opened Linq
  import opened ListField
  import opened Reports
  import opened Templates

  /**
   * `new HashSet<string>(StringComparer.OrdinalIgnoreCase)`. The elements are
   * kept in the order they were added, each with the spelling it was first
   * added with; two spellings that differ only in case are one element.
   */
  class CaseInsensitiveSet {
    var items: seq<string>

    ghost predicate Valid()
      reads this
    {
      NoDuplicates(items, OrdinalIgnoreCase)
    }

    constructor()
      ensures Valid() && items == []
    {
      items := [];
    }

    /** The case-folded keys of the elements. */
    function Keys(): set<string>
      reads this
    {
      KeySet(items, OrdinalIgnoreCase)
    }

    /** `Contains(x)`: some element equals `x` ignoring case. */
    function Contains(x: string): (b: bool)
      reads this
      ensures b <==> exists y :: y in items && OrdinalIgnoreCase.Equals(y, x)
    {
      OrdinalIgnoreCase.Key(x) in Keys()
    }

    /** `Count`: the number of elements, which is the number of keys. */
    function Count(): (n: nat)
      reads this
      requires Valid()
      ensures n == |Keys()|
    {
      NoDuplicatesKeyCount(items, OrdinalIgnoreCase);
      |items|
    }

    /**
     * `Add(x)`: adds `x` unless an element equal to it ignoring case is
     * there already, and says whether it did.
     */
    method Add(x: string) returns (added: bool)
      requires Valid()
      modifies this
      ensures Valid()
      ensures added <==> !old(Contains(x))
      ensures items == if added then old(items) + [x] else old(items)
      ensures Keys() == old(Keys()) + {OrdinalIgnoreCase.Key(x)}
    {
      NoDuplicatesSnoc(items, x, OrdinalIgnoreCase);
      KeySetSnoc(items, x, OrdinalIgnoreCase);
      added := !Contains(x);
      if added {
        items := items + [x];
      }
    }
  }

  /** `reader2.IsDBNull(0) ? (skipped) : reader2.GetString(0).Trim()`, with "" for skipped. */
  function TrimmedCell(cell: Option<string>): string
  {
    if cell.Some? then Trim(cell.value) else ""
  }

  /** The trimmed cells of the column, in reading order. */
  function TrimmedCells(column: seq<Option<string>>): (r: seq<string>)
    ensures |r| == |column|
  {
    seq(|column|, i requires 0 <= i < |column| => TrimmedCell(column[i]))
  }

  /**
   * The values the loader adds, in reading order: each non-null `Template`,
   * trimmed, when the trimmed value is not empty.
   */
  function Candidates(column: seq<Option<string>>): seq<string>
  {
    RemoveEmpty(TrimmedCells(column))
  }

  /** A value is a candidate exactly when it is the trimmed, non-empty value of some row. */
  lemma CandidatesSpec(column: seq<Option<string>>)
    ensures forall v :: v in Candidates(column) <==>
      v != "" && exists i :: 0 <= i < |column| && TrimmedCell(column[i]) == v
  {
    var cells := TrimmedCells(column);
    RemoveEmptyMembers(cells);
    forall v | v in cells ensures exists i :: 0 <= i < |column| && TrimmedCell(column[i]) == v {
      var i :| 0 <= i < |cells| && cells[i] == v;
    }
    forall v | exists i :: 0 <= i < |column| && TrimmedCell(column[i]) == v ensures v in cells {
      var i :| 0 <= i < |column| && TrimmedCell(column[i]) == v;
      assert cells[i] == v;
    }
  }

  /** The keys of the reference set: the case-folded candidates. */
  function ReferenceKeys(column: seq<Option<string>>): set<string>
  {
    KeySet(Candidates(column), OrdinalIgnoreCase)
  }

  /**
   * A string is in the loaded set exactly when some row's trimmed,
   * non-empty `Template` equals it ignoring case.
   */
  lemma ReferenceKeysSpec(column: seq<Option<string>>, x: string)
    ensures OrdinalIgnoreCase.Key(x) in ReferenceKeys(column) <==>
      exists i :: 0 <= i < |column| && TrimmedCell(column[i]) != "" &&
                  OrdinalIgnoreCase.Equals(TrimmedCell(column[i]), x)
  {
    CandidatesSpec(column);
    if OrdinalIgnoreCase.Key(x) in ReferenceKeys(column) {
      var v :| v in Candidates(column) && OrdinalIgnoreCase.Key(v) == OrdinalIgnoreCase.Key(x);
      var i :| 0 <= i < |column| && TrimmedCell(column[i]) == v;
      assert OrdinalIgnoreCase.Equals(TrimmedCell(column[i]), x);
    }
    if exists i :: 0 <= i < |column| && TrimmedCell(column[i]) != "" &&
                   OrdinalIgnoreCase.Equals(TrimmedCell(column[i]), x) {
      var i :| 0 <= i < |column| && TrimmedCell(column[i]) != "" &&
               OrdinalIgnoreCase.Equals(TrimmedCell(column[i]), x);
      assert TrimmedCell(column[i]) in Candidates(column);
    }
  }

  /**
   * Reading one more row adds its trimmed value to the first spellings
   * exactly when it is not empty and not there yet ignoring case.
   */
  lemma LoadStep(cells: seq<string>, i: int, items: seq<string>)
    requires 0 <= i < |cells|
    requires items == Distinct(RemoveEmpty(cells[..i]), OrdinalIgnoreCase)
    ensures Distinct(RemoveEmpty(cells[..i + 1]), OrdinalIgnoreCase)
         == if cells[i] != "" && OrdinalIgnoreCase.Key(cells[i]) !in KeySet(items, OrdinalIgnoreCase)
            then items + [cells[i]] else items
  {
    var before := RemoveEmpty(cells[..i]);
    assert cells[..i + 1] == cells[..i] + [cells[i]];
    assert RemoveEmpty(cells[..i + 1]) == before + (if cells[i] != "" then [cells[i]] else []);
    DistinctSpec(before, OrdinalIgnoreCase);
    if cells[i] != "" {
      DistinctSnoc(before, cells[i], OrdinalIgnoreCase);
    } else {
      assert before + [] == before;
    }
  }

  /**
   * The loop over `SELECT Template FROM GeneralDonts`: the set ends up with
   * the first spelling of every candidate, in reading order, and its keys
   * are the reference keys.
   */
  method LoadGeneralDonts(column: seq<Option<string>>) returns (general: CaseInsensitiveSet)
    ensures fresh(general)
    ensures general.Valid()
    ensures general.items == Distinct(Candidates(column), OrdinalIgnoreCase)
    ensures general.Keys() == ReferenceKeys(column)
  {
    general := new CaseInsensitiveSet();
    ghost var cells := TrimmedCells(column);
    var i := 0;
    while i < |column|
      invariant 0 <= i <= |column|
      invariant general.Valid()
      invariant general.items == Distinct(RemoveEmpty(cells[..i]), OrdinalIgnoreCase)
    {
      LoadStep(cells, i, general.items);
      if column[i].Some? {
        var val := Trim(column[i].value);
        if val != "" {
          var _ := general.Add(val);
        }
      }
      i := i + 1;
    }
    assert cells[..i] == cells;
    DistinctSpec(Candidates(column), OrdinalIgnoreCase);
  }

  /** `items.Where(x => generalDonts.Contains(x))`: the decoded entries that are reference values. */
  function OverlapEntries(donts: string, keys: set<string>): seq<string>
  {
    WhereKeyIn(Decode(donts), OrdinalIgnoreCase, keys)
  }

  /**
   * The overlaps keep the order of the field and every repetition of an entry
   * that is a reference value, and nothing else.
   */
  lemma OverlapEntriesSpec(donts: string, keys: set<string>)
    ensures Subsequence(OverlapEntries(donts, keys), Decode(donts))
    ensures forall x ::
      Linq.Count(OverlapEntries(donts, keys), x) ==
      (if OrdinalIgnoreCase.Key(x) in keys then Linq.Count(Decode(donts), x) else 0)
  {
    WhereKeyInSpec(Decode(donts), OrdinalIgnoreCase, keys);
  }

  /** A row has overlaps exactly when one of its entries is a reference value. */
  lemma OverlapEntriesFound(donts: string, keys: set<string>)
    ensures OverlapEntries(donts, keys) != [] <==>
      exists t :: t in Decode(donts) && OrdinalIgnoreCase.Key(t) in keys
  {
    var f := OverlapEntries(donts, keys);
    WhereKeyInMembers(Decode(donts), OrdinalIgnoreCase, keys);
    if f != [] {
      assert f[0] in f;
    }
  }

  /** The overlap report of a row, if any of its entries is a reference value. */
  function OverlapReport(r: TemplateRow, keys: set<string>): seq<ReportLine>
  {
    var found := OverlapEntries(Feld(r), keys);
    if found != [] then [Overlaps(DisplayName(r).GetOr(""), found)] else []
  }

  /** The overlap report of each row. */
  function OverlapReportsAll(rows: seq<TemplateRow>, keys: set<string>): (xss: seq<seq<ReportLine>>)
    ensures |xss| == |rows| && forall i :: 0 <= i < |rows| ==> xss[i] == OverlapReport(rows[i], keys)
  {
    seq(|rows|, i requires 0 <= i < |rows| => OverlapReport(rows[i], keys))
  }

  /** The report lines of the second pass over `rows`, row after row. */
  function PassBLog(rows: seq<TemplateRow>, keys: set<string>): seq<ReportLine>
  {
    Flatten(OverlapReportsAll(rows, keys))
  }

  lemma PassBLogSnoc(rows: seq<TemplateRow>, r: TemplateRow, keys: set<string>)
    ensures PassBLog(rows + [r], keys) == PassBLog(rows, keys) + OverlapReport(r, keys)
  {
    var xss := OverlapReportsAll(rows, keys);
    var yss := OverlapReportsAll(rows + [r], keys);
    forall i | 0 <= i < |rows| ensures yss[i] == xss[i] {
      assert (rows + [r])[i] == rows[i];
    }
    assert yss == xss + [OverlapReport(r, keys)];
    FlattenSnoc(xss, OverlapReport(r, keys));
  }

  /** The line of a row is there exactly when the row has overlaps. */
  lemma OverlapReportLine(r: TemplateRow, keys: set<string>, e: ReportLine)
    ensures e in OverlapReport(r, keys) <==>
      OverlapEntries(Feld(r), keys) != [] && e == Overlaps(DisplayName(r).GetOr(""), OverlapEntries(Feld(r), keys))
  {
  }

  /**
   * The second pass writes one line per row that has overlaps, with the
   * row's display name and its overlapping entries, and no other line.
   */
  lemma PassBLogLines(rows: seq<TemplateRow>, keys: set<string>, e: ReportLine)
    ensures e in PassBLog(rows, keys) <==>
      exists i :: 0 <= i < |rows| && OverlapEntries(Feld(rows[i]), keys) != [] &&
                  e == Overlaps(DisplayName(rows[i]).GetOr(""), OverlapEntries(Feld(rows[i]), keys))
  {
    var xss := OverlapReportsAll(rows, keys);
    FlattenMember(xss, e);
    forall i | 0 <= i < |rows|
      ensures e in xss[i] <==>
        OverlapEntries(Feld(rows[i]), keys) != [] &&
        e == Overlaps(DisplayName(rows[i]).GetOr(""), OverlapEntries(Feld(rows[i]), keys))
    {
      OverlapReportLine(rows[i], keys, e);
    }
  }

  /** One step of the second pass: the report grows by the lines of row `k`. */
  lemma PassBStep(rows: seq<TemplateRow>, k: int, keys: set<string>, lines0: seq<ReportLine>)
    requires 0 <= k < |rows|
    ensures lines0 + PassBLog(rows[..k], keys) + OverlapReport(rows[k], keys)
         == lines0 + PassBLog(rows[..k + 1], keys)
  {
    assert rows[..k + 1] == rows[..k] + [rows[k]];
    PassBLogSnoc(rows[..k], rows[k], keys);
    ConcatAssoc(lines0, PassBLog(rows[..k], keys), OverlapReport(rows[k], keys));
  }

  /**
   * One row of the second pass: report its overlaps, if there are any.
   * `keys` are the keys of the reference set, so `generalDonts.Contains(x)`
   * is `OrdinalIgnoreCase.Key(x) in keys`.
   */
  method ReportOverlaps(keys: set<string>, out: ReportFile, r: TemplateRow)
    requires OverlapQuery.Reads(r)
    modifies out
    ensures out.entries == old(out.entries) + OverlapReport(r, keys)
  {
    var displayName := DisplayName(r).value;
    var found := OverlapEntries(Feld(r), keys);
    if found != [] {
      out.WriteLine(Overlaps(displayName, found));
    }
  }

  /**
   * The second loop of `LookForDoubles`: reads rows until one cannot be read
   * and reports their overlaps with the reference set. `ok` says whether
   * every row was read. Only the report changes.
   */
  method FindOverlaps(table: TemplatesTable, general: CaseInsensitiveSet, out: ReportFile) returns (ok: bool)
    modifies out
    ensures var n := ReadablePrefix(table.rows, OverlapQuery);
      && ok == (n == |table.rows|)
      && out.entries == old(out.entries) + PassBLog(table.rows[..n], general.Keys())
  {
    ghost var lines0 := out.entries;
    var rows := table.rows;
    var keys := general.Keys();
    ghost var n := ReadablePrefix(rows, OverlapQuery);
    var i := 0;
    // the loop ends early at a row whose `GetString(0)` throws
    while i < |rows| && OverlapQuery.Reads(rows[i])
      invariant 0 <= i <= n
      invariant out.entries == lines0 + PassBLog(rows[..i], keys)
    {
      ReadablePrefixStep(rows, OverlapQuery, i);
      PassBStep(rows, i, keys, lines0);
      ReportOverlaps(keys, out, rows[i]);
      i := i + 1;
    }
    if i < |rows| {
      ReadablePrefixStep(rows, OverlapQuery, i);
    }
    assert i == n;
    ok := i == |rows|;
  }
}
