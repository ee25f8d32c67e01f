/**
 * The per-field clean-up of `LookForDoubles`: the case-sensitive duplicate
 * report and the case-insensitive first-occurrence de-duplication that gives
 * `cleanedString`.
 */
module Cleaning {
  import opened Text
  import opened Linq
  import opened ListField

  /**
   * The keys reported as duplicates: `items.GroupBy(x => x.Trim())`,
   * groups with more than one element, their keys. The trimmed keys of the
   * pieces are exactly the decoded entries.
   */
  function DuplicateKeys(raw: string): seq<string>
  {
    RepeatedKeys(TrimAll(Pieces(raw)))
  }

  /** The entries kept: `.Distinct(StringComparer.OrdinalIgnoreCase)` of the decoded entries. */
  function CleanedTokens(raw: string): seq<string>
  {
    Distinct(Decode(raw), OrdinalIgnoreCase)
  }

  /** `cleanedString`: the kept entries joined with `;`. */
  function Clean(raw: string): string
  {
    Encode(CleanedTokens(raw))
  }

  /**
   * The duplicate report lists exactly the trimmed entries that occur at least
   * twice under case-sensitive comparison, each once, in first-occurrence order.
   */
  lemma DuplicateKeysSpec(raw: string)
    ensures forall x :: x in DuplicateKeys(raw) <==> Count(Decode(raw), x) >= 2
    ensures NoDuplicates(DuplicateKeys(raw), Ordinal)
    ensures Subsequence(DuplicateKeys(raw), Distinct(Decode(raw), Ordinal))
  {
    RepeatedKeysSpec(Decode(raw));
  }

  /**
   * The kept entries: no two are equal ignoring case (so at most one is
   * empty); they are the decoded entries with some left out, in order; an
   * entry is kept exactly when no earlier entry equals it ignoring case, and
   * keeps its own casing; every decoded entry has a kept entry equal to it
   * ignoring case. They stay trimmed and free of `;`.
   */
  lemma CleanedTokensSpec(raw: string)
    ensures NoDuplicates(CleanedTokens(raw), OrdinalIgnoreCase)
    ensures forall i, j ::
              (0 <= i < |CleanedTokens(raw)| && 0 <= j < |CleanedTokens(raw)| &&
               CleanedTokens(raw)[i] == "" && CleanedTokens(raw)[j] == "") ==> i == j
    ensures Subsequence(CleanedTokens(raw), Decode(raw))
    ensures forall t :: t in CleanedTokens(raw) <==>
      exists i :: 0 <= i < |Decode(raw)| && Decode(raw)[i] == t && IsFirst(Decode(raw), OrdinalIgnoreCase, i)
    ensures forall t :: t in Decode(raw) ==>
      exists c :: c in CleanedTokens(raw) && OrdinalIgnoreCase.Equals(c, t)
    ensures forall t :: t in CleanedTokens(raw) ==> IsTrimmed(t) && Separator !in t
  {
    var d, r := Decode(raw), CleanedTokens(raw);
    DistinctSpec(d, OrdinalIgnoreCase);
    SubsequenceMembers(r, d);
    forall i, j | 0 <= i < |r| && 0 <= j < |r| && r[i] == "" && r[j] == "" ensures i == j {
      assert OrdinalIgnoreCase.Key(r[i]) == OrdinalIgnoreCase.Key(r[j]);
    }
    forall t | t in d ensures exists c :: c in r && OrdinalIgnoreCase.Equals(c, t) {
      assert OrdinalIgnoreCase.Key(t) in KeySet(r, OrdinalIgnoreCase);
    }
  }

  /** Reading back the cleaned value gives the kept entries without the empty one. */
  lemma DecodeOfClean(raw: string)
    ensures Decode(Clean(raw)) == RemoveEmpty(CleanedTokens(raw))
  {
    CleanedTokensSpec(raw);
    DecodeOfEncode(CleanedTokens(raw));
  }

  /** A cleaned value holds no two entries equal ignoring case, and no empty entry. */
  lemma CleanedValueHasNoDuplicates(raw: string)
    ensures NoDuplicates(Decode(Clean(raw)), OrdinalIgnoreCase)
    ensures "" !in Decode(Clean(raw))
  {
    var r := CleanedTokens(raw);
    DecodeOfClean(raw);
    CleanedTokensSpec(raw);
    RemoveEmptySpec(r);
    SubsequenceNoDuplicates(RemoveEmpty(r), r, OrdinalIgnoreCase);
  }

  /**
   * Cleaning a cleaned value again gives the same string exactly when the
   * kept entries contain no empty entry, or consist of that one entry alone.
   */
  lemma CleanIdempotentIff(raw: string)
    ensures Clean(Clean(raw)) == Clean(raw) <==>
      ("" !in CleanedTokens(raw) || |CleanedTokens(raw)| == 1)
  {
    var r := CleanedTokens(raw);
    var kept := RemoveEmpty(r);
    CleanedValueHasNoDuplicates(raw);
    DecodeOfClean(raw);
    NoDuplicatesDistinctIdentity(kept, OrdinalIgnoreCase);
    assert Clean(Clean(raw)) == Encode(kept);
    RemoveEmptySpec(r);
    if "" in r {
      if |r| == 1 {
        assert kept == [];
        assert r == [""];
      } else {
        JoinLength([Separator], r);
        if kept != [] {
          JoinLength([Separator], kept);
        }
        assert |Encode(kept)| < |Encode(r)|;
      }
    }
  }

  /** An empty or missing field is left as it is. */
  lemma CleanEmpty()
    ensures Clean("") == ""
  {
    BlankPieceDecodesToEmptyEntry();
  }

  /**
   * A value that cleaning leaves unchanged holds no two entries equal ignoring
   * case and no blank entry; so any such entry makes the row be written.
   */
  lemma UnchangedMeansClean(raw: string)
    requires Clean(raw) == raw
    ensures NoDuplicates(Decode(raw), OrdinalIgnoreCase)
    ensures "" !in Decode(raw)
  {
    CleanedValueHasNoDuplicates(raw);
  }

  /**
   * Conversely, a value already in its canonical form (entries free of
   * duplicates ignoring case, stored exactly as they join) is never rewritten.
   */
  lemma CanonicalNotWritten(raw: string)
    requires NoDuplicates(Decode(raw), OrdinalIgnoreCase)
    requires Encode(Decode(raw)) == raw
    ensures Clean(raw) == raw
  {
    NoDuplicatesDistinctIdentity(Decode(raw), OrdinalIgnoreCase);
  }

  /** A row whose duplicates are reported is always rewritten as well. */
  lemma ReportedDuplicatesForceWrite(raw: string)
    requires DuplicateKeys(raw) != []
    ensures Clean(raw) != raw
  {
    var x := DuplicateKeys(raw)[0];
    DuplicateKeysSpec(raw);
    RepeatedBreaksNoDuplicates(Decode(raw), x, OrdinalIgnoreCase);
    if Clean(raw) == raw {
      UnchangedMeansClean(raw);
    }
  }

  /**
   * When no piece of the stored value is white space only, cleaning is
   * idempotent: a second run writes nothing.
   */
  lemma CleanIdempotent(raw: string)
    requires forall p :: p in Pieces(raw) ==> Trim(p) != ""
    ensures Clean(Clean(raw)) == Clean(raw)
  {
    DecodeEmptyEntry(raw);
    CleanedTokensSpec(raw);
    SubsequenceMembers(CleanedTokens(raw), Decode(raw));
    CleanIdempotentIff(raw);
  }
}
