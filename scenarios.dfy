/**
 * Concrete field values run through the model: the field `A;B;A;c;C`, case
 * sensitivity of the duplicate report, a padded entry, and the blank piece
 * that makes cleaning non-idempotent.
 */
module Scenarios {
  import opened Text
  import opened Linq
  import opened ListField
  import opened Cleaning

  lemma EncodeCons(a: string, rest: seq<string>)
    requires rest != []
    ensures Encode([a] + rest) == a + ";" + Encode(rest)
  {
    assert [Separator] == ";";
    assert ([a] + rest)[1..] == rest;
  }

  /** Decoding a join of trimmed, non-empty, separator-free entries gives them back. */
  lemma DecodeLiteral(ts: seq<string>)
    requires forall t :: t in ts ==> t != "" && IsTrimmed(t) && Separator !in t
    ensures Decode(Encode(ts)) == ts
  {
    DecodeOfEncode(ts);
  }

  lemma KeyFacts()
    ensures OrdinalIgnoreCase.Key("A") == "A" && OrdinalIgnoreCase.Key("a") == "A"
    ensures OrdinalIgnoreCase.Key("B") == "B"
    ensures OrdinalIgnoreCase.Key("c") == "C" && OrdinalIgnoreCase.Key("C") == "C"
    ensures "A" != "B" && "A" != "c" && "A" != "C" && "B" != "c" && "B" != "C" && "c" != "C" && "A" != "a"
  {
    assert OrdinalIgnoreCase.Key("A")[0] == 'A';
    assert OrdinalIgnoreCase.Key("a")[0] == 'A';
    assert OrdinalIgnoreCase.Key("B")[0] == 'B';
    assert OrdinalIgnoreCase.Key("c")[0] == 'C';
    assert OrdinalIgnoreCase.Key("C")[0] == 'C';
    assert "A"[0] == 'A' && "a"[0] == 'a' && "B"[0] == 'B' && "c"[0] == 'c' && "C"[0] == 'C';
  }

  /** The groups of `A;B;A;c;C`: `A` twice, then `B`, `c` and `C` once each. */
  lemma GroupByFive()
    ensures GroupBy(["A", "B", "A", "c", "C"])
         == [Group("A", 2), Group("B", 1), Group("c", 1), Group("C", 1)]
  {
    KeyFacts();
    var k1, k2, k3, k4, k5 := ["A"], ["A", "B"], ["A", "B", "A"], ["A", "B", "A", "c"], ["A", "B", "A", "c", "C"];
    assert k5[..4] == k4 && k4[..3] == k3 && k3[..2] == k2 && k2[..1] == k1 && k1[..0] == [];
    var g1 := [Group("A", 1)];
    var g2 := [Group("A", 1), Group("B", 1)];
    var g3 := [Group("A", 2), Group("B", 1)];
    var g4 := [Group("A", 2), Group("B", 1), Group("c", 1)];
    assert GroupBy(k1) == AddToGroups([], "A") == g1;
    assert AddToGroups(g1[1..], "B") == [Group("B", 1)];
    assert GroupBy(k2) == AddToGroups(g1, "B") == g2;
    assert GroupBy(k3) == AddToGroups(g2, "A") == g3;
    assert AddToGroups(g3[1..][1..], "c") == [Group("c", 1)];
    assert AddToGroups(g3[1..], "c") == [Group("B", 1), Group("c", 1)];
    assert GroupBy(k4) == AddToGroups(g3, "c") == g4;
    assert AddToGroups(g4[1..][1..][1..], "C") == [Group("C", 1)];
    assert AddToGroups(g4[1..][1..], "C") == [Group("c", 1), Group("C", 1)];
    assert AddToGroups(g4[1..], "C") == [Group("B", 1), Group("c", 1), Group("C", 1)];
  }

  lemma GroupByExample()
    ensures RepeatedKeys(["A", "B", "A", "c", "C"]) == ["A"]
  {
    GroupByFive();
    var g3 := [Group("A", 2), Group("B", 1)];
    var g4 := [Group("A", 2), Group("B", 1), Group("c", 1)];
    var g5 := [Group("A", 2), Group("B", 1), Group("c", 1), Group("C", 1)];
    assert g5[..3] == g4 && g4[..2] == g3 && g3[..1] == [Group("A", 2)] && [Group("A", 2)][..0] == [];
    assert RepeatedGroupKeys([Group("A", 2)]) == ["A"];
    assert RepeatedGroupKeys(g3) == ["A"];
    assert RepeatedGroupKeys(g4) == ["A"];
  }

  lemma DistinctExample()
    ensures Distinct(["A", "B", "A", "c", "C"], OrdinalIgnoreCase) == ["A", "B", "c"]
  {
    KeyFacts();
    var ks := ["A", "B", "A", "c", "C"];
    assert ks[1..] == ["B", "A", "c", "C"];
    assert ks[1..][1..] == ["A", "c", "C"];
    assert ks[1..][1..][1..] == ["c", "C"];
    assert ks[1..][1..][1..][1..] == ["C"];
    assert DistinctFrom(["C"], OrdinalIgnoreCase, {"A", "B", "C"}) == [];
    assert DistinctFrom(["c", "C"], OrdinalIgnoreCase, {"A", "B"}) == ["c"];
    assert DistinctFrom(["A", "c", "C"], OrdinalIgnoreCase, {"A", "B"}) == ["c"];
    assert {"A"} + {"B"} == {"A", "B"};
    assert {"A", "B"} + {"C"} == {"A", "B", "C"};
    assert DistinctFrom(["B", "A", "c", "C"], OrdinalIgnoreCase, {"A"}) == ["B", "c"];
    assert {} + {"A"} == {"A"};
  }

  lemma EncodeFive()
    ensures Encode(["A", "B", "A", "c", "C"]) == "A;B;A;c;C"
  {
    EncodeCons("A", ["B", "A", "c", "C"]);
    EncodeCons("B", ["A", "c", "C"]);
    EncodeCons("A", ["c", "C"]);
    EncodeCons("c", ["C"]);
    assert Encode(["C"]) == "C";
  }

  lemma DecodeFive()
    ensures Decode("A;B;A;c;C") == ["A", "B", "A", "c", "C"]
  {
    EncodeFive();
    DecodeLiteral(["A", "B", "A", "c", "C"]);
  }

  lemma EncodeKept()
    ensures Encode(["A", "B", "c"]) == "A;B;c"
  {
    EncodeCons("A", ["B", "c"]);
    EncodeCons("B", ["c"]);
    assert Encode(["c"]) == "c";
  }

  /**
   * `"A;B;A;c;C"`: the report names `A` only (`c` and `C` differ in case),
   * the cleaned value is `"A;B;c"`, and since that differs the row is written.
   */
  lemma DuplicateScenario()
    ensures DuplicateKeys("A;B;A;c;C") == ["A"]
    ensures Clean("A;B;A;c;C") == "A;B;c"
  {
    DecodeFive();
    GroupByExample();
    DistinctExample();
    EncodeKept();
  }

  lemma DecodeCaseOnly()
    ensures Decode("A;a") == ["A", "a"]
  {
    EncodeCons("A", ["a"]);
    assert Encode(["a"]) == "a";
    assert ["A"] + ["a"] == ["A", "a"];
    assert "A" + ";" + "a" == "A;a";
    KeyFacts();
    assert !IsWhite('a') && !IsWhite('A');
    DecodeLiteral(["A", "a"]);
  }

  lemma GroupByCaseOnly()
    ensures RepeatedKeys(["A", "a"]) == []
  {
    KeyFacts();
    var ts := ["A", "a"];
    assert ts[..1] == ["A"] && ["A"][..0] == [];
    assert GroupBy(["A"]) == [Group("A", 1)];
    assert AddToGroups([Group("A", 1)][1..], "a") == [Group("a", 1)];
    assert GroupBy(ts) == [Group("A", 1), Group("a", 1)];
    assert [Group("A", 1), Group("a", 1)][..1] == [Group("A", 1)];
    assert RepeatedGroupKeys([Group("A", 1)]) == [];
  }

  lemma DistinctCaseOnly()
    ensures Distinct(["A", "a"], OrdinalIgnoreCase) == ["A"]
  {
    KeyFacts();
    assert ["A", "a"][1..] == ["a"];
    assert {} + {"A"} == {"A"};
    assert DistinctFrom(["a"], OrdinalIgnoreCase, {"A"}) == [];
  }

  /** `"A;a"`: no duplicate is reported (ordinal grouping), yet cleaning keeps only `A`. */
  lemma CaseOnlyScenario()
    ensures DuplicateKeys("A;a") == []
    ensures Clean("A;a") == "A"
  {
    DecodeCaseOnly();
    GroupByCaseOnly();
    DistinctCaseOnly();
    assert Encode(["A"]) == "A";
  }

  lemma EncodeBlankPiece()
    ensures Encode(["A", " ", "B"]) == "A; ;B"
  {
    EncodeCons("A", [" ", "B"]);
    EncodeCons(" ", ["B"]);
    assert Encode(["B"]) == "B";
    assert [" "] + ["B"] == [" ", "B"];
    assert ["A"] + [" ", "B"] == ["A", " ", "B"];
  }

  lemma PiecesBlankPiece()
    ensures Pieces("A; ;B") == ["A", " ", "B"]
  {
    var ps := ["A", " ", "B"];
    EncodeBlankPiece();
    assert " "[0] == ' ' && "A"[0] == 'A' && "B"[0] == 'B';
    assert forall p :: p in ps ==> Separator !in p;
    PiecesOfEncode(ps);
    assert "" !in ps;
    RemoveEmptySpec(ps);
  }

  lemma TrimBlank()
    ensures Trim(" ") == "" && Trim("A") == "A" && Trim("B") == "B"
  {
    assert |" "| == 1 && " "[0] == ' ' && IsWhite(' ');
    assert "A"[0] == 'A' && !IsWhite('A');
    assert "B"[0] == 'B' && !IsWhite('B');
    TrimOfTrimmed("A");
    TrimOfTrimmed("B");
  }

  lemma DecodeBlankPiece()
    ensures Decode("A; ;B") == ["A", "", "B"]
  {
    PiecesBlankPiece();
    TrimAllThree("A", " ", "B");
    TrimBlank();
  }

  lemma TrimAllThree(a: string, b: string, c: string)
    ensures TrimAll([a, b, c]) == [Trim(a), Trim(b), Trim(c)]
  {
  }

  lemma EncodeEmptyEntry()
    ensures Encode(["A", "", "B"]) == "A;;B"
    ensures Encode(["A", "B"]) == "A;B"
  {
    EncodeCons("A", ["", "B"]);
    EncodeCons("", ["B"]);
    EncodeCons("A", ["B"]);
    assert Encode(["B"]) == "B";
    assert [""] + ["B"] == ["", "B"];
    assert ["A"] + ["", "B"] == ["A", "", "B"];
    assert ["A"] + ["B"] == ["A", "B"];
  }

  lemma RemoveEmptyExample()
    ensures RemoveEmpty(["A", "", "B"]) == ["A", "B"]
  {
    var ts := ["A", "", "B"];
    assert ts[..2] == ["A", ""] && ["A", ""][..1] == ["A"] && ["A"][..0] == [];
    assert RemoveEmpty(["A"]) == ["A"];
    assert RemoveEmpty(["A", ""]) == ["A"];
  }

  lemma DecodeEmptyEntryExample()
    ensures Decode("A;;B") == ["A", "B"]
  {
    var ts := ["A", "", "B"];
    EncodeEmptyEntry();
    TrimBlank();
    assert "" == [] && IsTrimmed("") && IsTrimmed("A") && IsTrimmed("B");
    assert "A"[0] == 'A' && "B"[0] == 'B';
    assert forall t :: t in ts ==> IsTrimmed(t) && Separator !in t;
    DecodeOfEncode(ts);
    RemoveEmptyExample();
  }

  lemma KeptThree()
    ensures CleanedTokens("A; ;B") == ["A", "", "B"]
  {
    DecodeBlankPiece();
    NoDuplicatesThree();
    NoDuplicatesDistinctIdentity(["A", "", "B"], OrdinalIgnoreCase);
  }

  lemma NoDuplicatesThree()
    ensures NoDuplicates(["A", "", "B"], OrdinalIgnoreCase)
  {
    KeyFacts();
    var ts := ["A", "", "B"];
    var ks := [OrdinalIgnoreCase.Key(ts[0]), OrdinalIgnoreCase.Key(ts[1]), OrdinalIgnoreCase.Key(ts[2])];
    assert |ks[0]| == 1 && |ks[1]| == 0 && |ks[2]| == 1;
    assert ks[0] == "A" && ks[2] == "B";
    forall i, j | 0 <= i < j < |ts|
      ensures OrdinalIgnoreCase.Key(ts[i]) != OrdinalIgnoreCase.Key(ts[j])
    {
      assert OrdinalIgnoreCase.Key(ts[i]) == ks[i] && OrdinalIgnoreCase.Key(ts[j]) == ks[j];
    }
  }

  lemma NoDuplicatesTwo()
    ensures NoDuplicates(["A", "B"], OrdinalIgnoreCase)
  {
    KeyFacts();
    var ts := ["A", "B"];
    assert forall i, j :: 0 <= i < j < |ts| ==> OrdinalIgnoreCase.Key(ts[i]) != OrdinalIgnoreCase.Key(ts[j]);
  }

  lemma KeptTwo()
    ensures CleanedTokens("A;;B") == ["A", "B"]
  {
    DecodeEmptyEntryExample();
    NoDuplicatesTwo();
    NoDuplicatesDistinctIdentity(["A", "B"], OrdinalIgnoreCase);
  }

  /**
   * `"A; ;B"`: the blank piece survives trimming as an empty entry, so the
   * cleaned value `"A;;B"` is not a fixed point: cleaning it again gives `"A;B"`.
   */
  lemma BlankPieceScenario()
    ensures Clean("A; ;B") == "A;;B"
    ensures Clean("A;;B") == "A;B"
  {
    KeptThree();
    KeptTwo();
    EncodeEmptyEntry();
  }

  lemma PiecesPadded()
    ensures Pieces("A; B") == ["A", " B"]
  {
    var ps := ["A", " B"];
    EncodePadded();
    assert " B"[0] == ' ' && " B"[1] == 'B' && "A"[0] == 'A';
    assert forall p :: p in ps ==> Separator !in p;
    PiecesOfEncode(ps);
    assert "" !in ps;
    RemoveEmptyKeeps(ps);
  }

  lemma EncodePadded()
    ensures Encode(["A", " B"]) == "A; B"
  {
    EncodeCons("A", [" B"]);
    assert Encode([" B"]) == " B";
    assert ["A"] + [" B"] == ["A", " B"];
  }

  lemma TrimPadded()
    ensures Trim(" B") == "B" && Trim("A") == "A"
  {
    assert " B"[0] == ' ' && IsWhite(' ') && " B"[1..] == "B";
    assert "B"[0] == 'B' && !IsWhite('B');
    assert LeadingWhite("B") == 0;
    assert LeadingWhite(" B") == 1;
    TrimOfTrimmed("B");
    assert "A"[0] == 'A' && !IsWhite('A');
    TrimOfTrimmed("A");
  }

  lemma TrimAllTwo(a: string, b: string)
    ensures TrimAll([a, b]) == [Trim(a), Trim(b)]
  {
  }

  lemma DecodePadded()
    ensures Decode("A; B") == ["A", "B"]
  {
    PiecesPadded();
    TrimAllTwo("A", " B");
    TrimPadded();
  }

  /**
   * `"A; B"`: no entry repeats, yet the value is rewritten, because the padded
   * entry is stored trimmed.
   */
  lemma PaddedEntryScenario()
    ensures DuplicateKeys("A; B") == []
    ensures Clean("A; B") == "A;B"
  {
    PaddedNotReported();
    PaddedCleaned();
  }

  lemma PaddedNotReported()
    ensures DuplicateKeys("A; B") == []
  {
    DecodePadded();
    NoDuplicatesTwo();
    DuplicateKeysSpec("A; B");
    if DuplicateKeys("A; B") != [] {
      RepeatedBreaksNoDuplicates(["A", "B"], DuplicateKeys("A; B")[0], OrdinalIgnoreCase);
    }
  }

  lemma PaddedCleaned()
    ensures Clean("A; B") == "A;B"
  {
    DecodePadded();
    NoDuplicatesTwo();
    NoDuplicatesDistinctIdentity(["A", "B"], OrdinalIgnoreCase);
    EncodeEmptyEntry();
  }
}
