/**
 * The report file `duplicates.txt`: the kinds of line `LookForDoubles`
 * writes, their exact wording, and the writer that appends them.
 */
module Reports {
  import opened Text

  /** One line of the report. */
  datatype ReportLine =
    | Duplicates(record: string, keys: seq<string>)   // a record with repeated entries
    | Cleaned(id: string, value: string)             // a record whose field was rewritten
    | Loaded(count: nat)                             // size of the reference set
    | Overlaps(record: string, found: seq<string>)   // entries that are also reference values

  const DuplicatesPrefix: string := "Datensatz "
  const DuplicatesInfix: string := " hat Dubletten: "
  const CleanedPrefix: string := "Datensatz "
  const CleanedInfix: string := " bereinigt: "
  const LoadedPrefix: string := "GeneralDonts geladen: "
  const LoadedSuffix: string := " Werte\n"
  const OverlapsPrefix: string := "Template "
  const OverlapsInfix: string := " hat Überschneidungen: "

  /** The text of a line, with lists joined by `", "`. */
  function Format(line: ReportLine): string
  {
    match line
    case Duplicates(record, keys) => DuplicatesPrefix + record + DuplicatesInfix + Join(", ", keys)
    case Cleaned(id, value) => CleanedPrefix + id + CleanedInfix + value
    case Loaded(count) => LoadedPrefix + NatToString(count) + LoadedSuffix
    case Overlaps(record, found) => OverlapsPrefix + record + OverlapsInfix + Join(", ", found)
  }

  /** The texts of a sequence of lines. */
  function Lines(log: seq<ReportLine>): (r: seq<string>)
    ensures |r| == |log|
  {
    seq(|log|, i requires 0 <= i < |log| => Format(log[i]))
  }

  /** Writing two groups of lines one after the other writes the text of both. */
  lemma LinesAppend(a: seq<ReportLine>, b: seq<ReportLine>)
    ensures Lines(a + b) == Lines(a) + Lines(b)
  {
    assert forall i :: 0 <= i < |a| ==> (a + b)[i] == a[i];
    assert forall i :: |a| <= i < |a| + |b| ==> (a + b)[i] == b[i - |a|];
  }

  /**
   * The count in the reference-set line reads back from its text: the digits
   * between the fixed prefix and suffix denote it.
   */
  lemma LoadedCountReadsBack(count: nat)
    ensures var t := Format(Loaded(count));
      |t| > |LoadedPrefix| + |LoadedSuffix| &&
      var digits := t[|LoadedPrefix|..|t| - |LoadedSuffix|];
      IsDigits(digits) && DecimalValue(digits) == count
  {
    var d := NatToString(count);
    var t := Format(Loaded(count));
    assert t == LoadedPrefix + d + LoadedSuffix;
    assert t[|LoadedPrefix|..|t| - |LoadedSuffix|] == d;
    NatToStringRoundTrip(count);
  }

  /**
   * `StreamWriter` over `duplicates.txt`, opened for overwriting. It keeps the
   * lines written; `Text()` is what the file holds.
   */
  class ReportFile {
    var entries: seq<ReportLine>

    constructor()
      ensures entries == []
    {
      entries := [];
    }

    /** The text of the file, line by line. */
    function Text(): seq<string>
      reads this
    {
      Lines(entries)
    }

    /** `writer.WriteLine(message)` with `message == Format(line)`. */
    method WriteLine(line: ReportLine)
      modifies this
      ensures entries == old(entries) + [line]
      ensures Text() == old(Text()) + [Format(line)]
    {
      LinesAppend(entries, [line]);
      entries := entries + [line];
    }
  }
}
