/**
 * The list-valued `Donts` field: a string of entries separated by `;`.
 * Reading it is `Split(';', StringSplitOptions.RemoveEmptyEntries)` followed
 * by `Trim()` of every piece; writing it is `string.Join(";", ...)`.
 */
module ListField {
  import opened Text
  import opened Linq

  const Separator: char := ';'

  /** `s.Split(sep)` without options: every piece between separators, empty ones too. */
  function SplitAll(s: string, sep: char): (r: seq<string>)
    ensures |r| >= 1
    ensures forall p :: p in r ==> sep !in p
  {
    if s == [] then [""]
    else
      var rest := SplitAll(s[1..], sep);
      if s[0] == sep then [""] + rest
      else
        assert rest[0] in rest;
        [[s[0]] + rest[0]] + rest[1..]
  }

  /** Joining the pieces with the separator gives back the string that was split. */
  lemma {:induction false} JoinSplitAll(s: string, sep: char)
    ensures Join([sep], SplitAll(s, sep)) == s
  {
    if s != [] {
      var rest := SplitAll(s[1..], sep);
      JoinSplitAll(s[1..], sep);
      if s[0] == sep {
        assert ([""] + rest)[1..] == rest;
      } else {
        var r := [[s[0]] + rest[0]] + rest[1..];
        if |rest| > 1 {
          assert r[1..] == rest[1..];
          assert Join([sep], rest) == rest[0] + [sep] + Join([sep], rest[1..]);
        }
      }
      assert s == [s[0]] + s[1..];
    }
  }

  lemma {:induction false} SplitAllPrefix(p: string, t: string, sep: char)
    requires sep !in p
    ensures SplitAll(p + t, sep) == [p + SplitAll(t, sep)[0]] + SplitAll(t, sep)[1..]
  {
    var r := SplitAll(t, sep);
    if p == [] {
      assert p + t == t;
      assert p + r[0] == r[0];
      assert [r[0]] + r[1..] == r;
    } else {
      assert (p + t)[0] == p[0] && (p + t)[1..] == p[1..] + t;
      SplitAllPrefix(p[1..], t, sep);
      var rest := SplitAll(p[1..] + t, sep);
      assert rest == [p[1..] + r[0]] + r[1..];
      assert rest[1..] == r[1..];
      assert [p[0]] + (p[1..] + r[0]) == p + r[0];
    }
  }

  /** Splitting a join of separator-free pieces gives back the pieces. */
  lemma {:induction false} SplitAllJoin(ps: seq<string>, sep: char)
    requires ps != []
    requires forall p :: p in ps ==> sep !in p
    ensures SplitAll(Join([sep], ps), sep) == ps
  {
    assert ps[0] in ps;
    if |ps| == 1 {
      SplitAllPrefix(ps[0], "", sep);
      assert ps[0] + "" == ps[0];
    } else {
      var rest := Join([sep], ps[1..]);
      assert forall p :: p in ps[1..] ==> p in ps;
      SplitAllJoin(ps[1..], sep);
      assert Join([sep], ps) == ps[0] + ([sep] + rest);
      assert ([sep] + rest)[0] == sep && ([sep] + rest)[1..] == rest;
      assert SplitAll([sep] + rest, sep) == [""] + ps[1..];
      SplitAllPrefix(ps[0], [sep] + rest, sep);
      assert ps[0] + "" == ps[0];
      assert [ps[0]] + ps[1..] == ps;
    }
  }

  /** `StringSplitOptions.RemoveEmptyEntries`: drops the empty pieces. */
  function RemoveEmpty(xs: seq<string>): (r: seq<string>)
    ensures forall p :: p in r ==> p != ""
  {
    if xs == [] then []
    else
      var n := |xs| - 1;
      RemoveEmpty(xs[..n]) + (if xs[n] == "" then [] else [xs[n]])
  }

  /** Removing empty pieces keeps order, total length, and loses something exactly when there was an empty piece. */
  lemma RemoveEmptySpec(xs: seq<string>)
    ensures Subsequence(RemoveEmpty(xs), xs)
    ensures TotalLength(RemoveEmpty(xs)) == TotalLength(xs)
    ensures "" !in xs ==> RemoveEmpty(xs) == xs
    ensures "" in xs ==> |RemoveEmpty(xs)| < |xs|
  {
    RemoveEmptySubsequence(xs);
    RemoveEmptyTotalLength(xs);
    if "" !in xs {
      RemoveEmptyKeeps(xs);
    }
    RemoveEmptyDrops(xs);
  }

  lemma {:induction false} RemoveEmptySubsequence(xs: seq<string>)
    ensures Subsequence(RemoveEmpty(xs), xs)
  {
    if xs != [] {
      var n := |xs| - 1;
      var init := xs[..n];
      RemoveEmptySubsequence(init);
      SubsequenceSnocMaybe(RemoveEmpty(init), init, xs[n], if xs[n] == "" then [] else [xs[n]]);
      assert init + [xs[n]] == xs;
    }
  }

  lemma {:induction false} RemoveEmptyTotalLength(xs: seq<string>)
    ensures TotalLength(RemoveEmpty(xs)) == TotalLength(xs)
  {
    if xs != [] {
      var n := |xs| - 1;
      var init := xs[..n];
      var r := RemoveEmpty(init);
      RemoveEmptyTotalLength(init);
      assert init + [xs[n]] == xs;
      TotalLengthSnoc(init, xs[n]);
      if xs[n] == "" {
        assert r + [] == r;
      } else {
        TotalLengthSnoc(r, xs[n]);
      }
    }
  }

  lemma {:induction false} RemoveEmptyKeeps(xs: seq<string>)
    requires "" !in xs
    ensures RemoveEmpty(xs) == xs
  {
    if xs != [] {
      var n := |xs| - 1;
      var init := xs[..n];
      assert "" !in init;
      RemoveEmptyKeeps(init);
      assert xs[n] in xs;
      assert init + [xs[n]] == xs;
    }
  }

  lemma {:induction false} RemoveEmptyDrops(xs: seq<string>)
    ensures |RemoveEmpty(xs)| <= |xs|
    ensures "" in xs ==> |RemoveEmpty(xs)| < |xs|
  {
    if xs != [] {
      var n := |xs| - 1;
      var init := xs[..n];
      RemoveEmptyDrops(init);
      if xs[n] != "" && "" in xs {
        var i :| 0 <= i < |xs| && xs[i] == "";
        assert init[i] == "";
      }
    }
  }

  /** Exactly the non-empty pieces survive. */
  lemma {:induction false} RemoveEmptyMembers(xs: seq<string>)
    ensures forall p :: p in RemoveEmpty(xs) <==> p in xs && p != ""
  {
    if xs != [] {
      var n := |xs| - 1;
      RemoveEmptyMembers(xs[..n]);
      assert xs[..n] + [xs[n]] == xs;
    }
  }

  lemma {:induction false} TotalLengthSnoc(xs: seq<string>, x: string)
    ensures TotalLength(xs + [x]) == TotalLength(xs) + |x|
  {
    if xs != [] {
      assert (xs + [x])[1..] == xs[1..] + [x];
      TotalLengthSnoc(xs[1..], x);
    }
  }

  /** `raw.Split(';', StringSplitOptions.RemoveEmptyEntries)`. */
  function Pieces(raw: string): (r: seq<string>)
    ensures forall p :: p in r ==> p != "" && Separator !in p
  {
    var all := SplitAll(raw, Separator);
    RemoveEmptySpec(all);
    SubsequenceMembers(RemoveEmpty(all), all);
    RemoveEmpty(all)
  }

  /** `.Select(x => x.Trim())`. */
  function TrimAll(xs: seq<string>): (r: seq<string>)
    ensures |r| == |xs|
  {
    seq(|xs|, i requires 0 <= i < |xs| => Trim(xs[i]))
  }

  /** The entries of a stored field: the non-empty pieces, each trimmed. */
  function Decode(raw: string): (r: seq<string>)
    ensures forall t :: t in r ==> IsTrimmed(t) && Separator !in t
  {
    var ps := Pieces(raw);
    assert forall i :: 0 <= i < |ps| ==> ps[i] in ps;
    TrimAll(ps)
  }

  /** `string.Join(";", tokens)`. */
  function Encode(tokens: seq<string>): string
  {
    Join([Separator], tokens)
  }

  /** Reading back a written list gives its non-empty entries. */
  lemma PiecesOfEncode(tokens: seq<string>)
    requires forall t :: t in tokens ==> Separator !in t
    ensures Pieces(Encode(tokens)) == RemoveEmpty(tokens)
  {
    if tokens == [] {
      assert SplitAll("", Separator) == [""];
      assert RemoveEmpty([""]) == RemoveEmpty([]) + [];
    } else {
      SplitAllJoin(tokens, Separator);
    }
  }

  /** Trimming entries that are already trimmed changes nothing. */
  lemma TrimAllOfTrimmed(xs: seq<string>)
    requires forall x :: x in xs ==> IsTrimmed(x)
    ensures TrimAll(xs) == xs
  {
    forall i | 0 <= i < |xs| ensures Trim(xs[i]) == xs[i] {
      assert xs[i] in xs;
      TrimOfTrimmed(xs[i]);
    }
  }

  /**
   * Writing trimmed, separator-free entries and reading them back drops the
   * empty ones and returns the rest unchanged.
   */
  lemma DecodeOfEncode(tokens: seq<string>)
    requires forall t :: t in tokens ==> IsTrimmed(t) && Separator !in t
    ensures Decode(Encode(tokens)) == RemoveEmpty(tokens)
    ensures "" !in tokens ==> Decode(Encode(tokens)) == tokens
  {
    PiecesOfEncode(tokens);
    var ps := RemoveEmpty(tokens);
    RemoveEmptySpec(tokens);
    SubsequenceMembers(ps, tokens);
    TrimAllOfTrimmed(ps);
  }

  /** Decoding a written-back decoded value loses at most the blank entries. */
  lemma DecodeNormalizes(raw: string)
    ensures Decode(Encode(Decode(raw))) == RemoveEmpty(Decode(raw))
  {
    DecodeOfEncode(Decode(raw));
  }

  /** A piece consisting of white space only survives as an empty entry. */
  lemma {:induction false} BlankPieceDecodesToEmptyEntry()
    ensures Decode(" ") == [""]
    ensures Decode("") == []
  {
    assert SplitAll("", Separator) == [""];
    assert " "[1..] == "" && " "[0] != Separator;
    assert [" "[0]] + "" == " ";
    assert SplitAll(" ", Separator) == [[" "[0]] + ""] + [""][1..];
    assert RemoveEmpty([""]) == [];
    assert RemoveEmpty([" "]) == RemoveEmpty([]) + [" "];
    assert LeadingWhite(" ") == 1;
    assert Trim(" ") == "";
  }

  /** A whitespace-only piece is what makes an empty entry. */
  lemma DecodeEmptyEntry(raw: string)
    ensures "" in Decode(raw) <==> exists p :: p in Pieces(raw) && Trim(p) == ""
  {
    var ps := Pieces(raw);
    if "" in Decode(raw) {
      var i :| 0 <= i < |ps| && Decode(raw)[i] == "";
      assert ps[i] in ps;
    }
    if exists p :: p in ps && Trim(p) == "" {
      var p :| p in ps && Trim(p) == "";
      var i :| 0 <= i < |ps| && ps[i] == p;
      assert Decode(raw)[i] == "";
    }
  }
}
