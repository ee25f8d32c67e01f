/**
 * The LINQ operators the clean-up applies to string lists:
 * `Distinct(comparer)`, `GroupBy(key).Where(g => g.Count() > 1).Select(g => g.Key)`
 * and `Where(x => set.Contains(x))`, each next to an independent description
 * of its result and the lemmas that connect the two.
 */
module Linq {
  import opened Text

  /** The number of occurrences of `x` in `xs`. */
  function Count<T(==)>(xs: seq<T>, x: T): nat
  {
    if xs == [] then 0
    else Count(xs[..|xs| - 1], x) + (if xs[|xs| - 1] == x then 1 else 0)
  }

  lemma {:induction false} CountMember<T>(xs: seq<T>, x: T)
    ensures Count(xs, x) > 0 <==> x in xs
  {
    if xs != [] {
      var init := xs[..|xs| - 1];
      CountMember(init, x);
      assert xs == init + [xs[|xs| - 1]];
    }
  }

  lemma CountSnoc<T>(xs: seq<T>, y: T, x: T)
    ensures Count(xs + [y], x) == Count(xs, x) + (if y == x then 1 else 0)
  {
    assert (xs + [y])[..|xs|] == xs;
  }

  /** An element counted twice sits at two different positions. */
  lemma {:induction false} CountTwice<T>(xs: seq<T>, x: T)
    requires Count(xs, x) >= 2
    ensures exists i, j :: 0 <= i < j < |xs| && xs[i] == x && xs[j] == x
  {
    var n := |xs| - 1;
    var init := xs[..n];
    if xs[n] == x {
      CountMember(init, x);
      var i :| 0 <= i < |init| && init[i] == x;
      assert xs[i] == x && xs[n] == x;
    } else {
      CountTwice(init, x);
      var i, j :| 0 <= i < j < |init| && init[i] == x && init[j] == x;
      assert xs[i] == x && xs[j] == x;
    }
  }

  /** `SelectMany`: the lists one after another. */
  function Flatten<T>(xss: seq<seq<T>>): seq<T>
  {
    if xss == [] then [] else Flatten(xss[..|xss| - 1]) + xss[|xss| - 1]
  }

  /** Concatenation regroups freely. */
  lemma ConcatAssoc<T>(a: seq<T>, b: seq<T>, c: seq<T>)
    ensures a + b + c == a + (b + c)
  {
  }

  lemma FlattenSnoc<T>(xss: seq<seq<T>>, xs: seq<T>)
    ensures Flatten(xss + [xs]) == Flatten(xss) + xs
  {
    assert (xss + [xs])[..|xss|] == xss;
  }

  /** An element of the flattened list comes from one of the lists. */
  lemma {:induction false} FlattenMember<T>(xss: seq<seq<T>>, e: T)
    ensures e in Flatten(xss) <==> exists i :: 0 <= i < |xss| && e in xss[i]
  {
    if xss != [] {
      var n := |xss| - 1;
      var init := xss[..n];
      FlattenMember(init, e);
      if e in Flatten(init) {
        var i :| 0 <= i < n && e in init[i];
        assert xss[i] == init[i];
      }
      if exists i :: 0 <= i < |xss| && e in xss[i] {
        var i :| 0 <= i < |xss| && e in xss[i];
        if i < n {
          assert init[i] == xss[i];
        }
      }
    }
  }

  /**
   * `a` is `b` with some elements left out: same elements, same relative order.
   */
  predicate Subsequence<T(==)>(a: seq<T>, b: seq<T>)
    decreases |b|
  {
    || a == []
    || (b != [] &&
        (|| (a[|a| - 1] == b[|b| - 1] && Subsequence(a[..|a| - 1], b[..|b| - 1]))
         || Subsequence(a, b[..|b| - 1])))
  }

  lemma SubsequenceSnoc<T>(a: seq<T>, b: seq<T>, y: T)
    requires Subsequence(a, b)
    ensures Subsequence(a, b + [y]) && Subsequence(a + [y], b + [y])
  {
    assert (b + [y])[..|b|] == b;
    assert (a + [y])[..|a|] == a;
  }

  /** Appending an element to `b`, and perhaps to `a` too, keeps `a` a subsequence. */
  lemma SubsequenceSnocMaybe<T>(a: seq<T>, b: seq<T>, y: T, last: seq<T>)
    requires Subsequence(a, b)
    requires last == [] || last == [y]
    ensures Subsequence(a + last, b + [y])
  {
    SubsequenceSnoc(a, b, y);
    if last == [] {
      assert a + last == a;
    }
  }

  lemma {:induction false} SubsequenceMembers<T>(a: seq<T>, b: seq<T>)
    requires Subsequence(a, b)
    ensures |a| <= |b|
    ensures forall x :: x in a ==> x in b
  {
    if a != [] {
      var n := |b| - 1;
      if a[|a| - 1] == b[n] && Subsequence(a[..|a| - 1], b[..n]) {
        SubsequenceMembers(a[..|a| - 1], b[..n]);
        assert a == a[..|a| - 1] + [a[|a| - 1]];
      } else {
        SubsequenceMembers(a, b[..n]);
      }
      assert b == b[..n] + [b[n]];
    }
  }

  /** The keys of the elements of `xs` under `cmp`. */
  function KeySet(xs: seq<string>, cmp: Comparer): set<string>
  {
    set x | x in xs :: cmp.Key(x)
  }

  lemma KeySetSnoc(xs: seq<string>, x: string, cmp: Comparer)
    ensures KeySet(xs + [x], cmp) == KeySet(xs, cmp) + {cmp.Key(x)}
  {
    assert x in xs + [x];
    forall k | k in KeySet(xs, cmp) ensures k in KeySet(xs + [x], cmp) {
      var y :| y in xs && cmp.Key(y) == k;
      assert y in xs + [x];
    }
  }

  lemma KeySetCons(x: string, xs: seq<string>, cmp: Comparer)
    ensures KeySet([x] + xs, cmp) == {cmp.Key(x)} + KeySet(xs, cmp)
  {
    assert x in [x] + xs;
    forall k | k in KeySet(xs, cmp) ensures k in KeySet([x] + xs, cmp) {
      var y :| y in xs && cmp.Key(y) == k;
      assert y in [x] + xs;
    }
  }

  lemma OrdinalKeySet(xs: seq<string>)
    ensures forall x :: x in KeySet(xs, Ordinal) <==> x in xs
  {
    forall x | x in xs ensures x in KeySet(xs, Ordinal) {
      assert Ordinal.Key(x) == x;
    }
  }

  /** No two elements of `xs` are equal under `cmp`. */
  predicate NoDuplicates(xs: seq<string>, cmp: Comparer)
  {
    forall i, j :: 0 <= i < j < |xs| ==> cmp.Key(xs[i]) != cmp.Key(xs[j])
  }

  /** An element occurring twice makes a list fail `NoDuplicates` under any comparer. */
  lemma RepeatedBreaksNoDuplicates(xs: seq<string>, x: string, cmp: Comparer)
    requires Count(xs, x) >= 2
    ensures !NoDuplicates(xs, cmp)
  {
    CountTwice(xs, x);
    var i, j :| 0 <= i < j < |xs| && xs[i] == x && xs[j] == x;
    assert cmp.Key(xs[i]) == cmp.Key(xs[j]);
  }

  lemma NoDuplicatesSnoc(xs: seq<string>, x: string, cmp: Comparer)
    ensures NoDuplicates(xs + [x], cmp) <==> NoDuplicates(xs, cmp) && cmp.Key(x) !in KeySet(xs, cmp)
  {
    var ys := xs + [x];
    if NoDuplicates(ys, cmp) {
      assert forall i, j :: 0 <= i < j < |xs| ==> xs[i] == ys[i] && xs[j] == ys[j];
      forall y | y in xs ensures cmp.Key(y) != cmp.Key(x) {
        var i :| 0 <= i < |xs| && xs[i] == y;
        assert ys[i] == y && ys[|xs|] == x;
      }
    }
    if NoDuplicates(xs, cmp) && cmp.Key(x) !in KeySet(xs, cmp) {
      forall i, j | 0 <= i < j < |ys| ensures cmp.Key(ys[i]) != cmp.Key(ys[j]) {
        if j == |xs| {
          assert ys[i] == xs[i] && xs[i] in xs;
        }
      }
    }
  }

  /** Without duplicates every element has a key of its own. */
  lemma {:induction false} NoDuplicatesKeyCount(xs: seq<string>, cmp: Comparer)
    requires NoDuplicates(xs, cmp)
    ensures |KeySet(xs, cmp)| == |xs|
  {
    if xs != [] {
      var n := |xs| - 1;
      assert xs[..n] + [xs[n]] == xs;
      NoDuplicatesSnoc(xs[..n], xs[n], cmp);
      NoDuplicatesKeyCount(xs[..n], cmp);
      KeySetSnoc(xs[..n], xs[n], cmp);
    } else {
      assert KeySet(xs, cmp) == {};
    }
  }

  /** Leaving elements out cannot create duplicates. */
  lemma {:induction false} SubsequenceNoDuplicates(a: seq<string>, b: seq<string>, cmp: Comparer)
    requires Subsequence(a, b) && NoDuplicates(b, cmp)
    ensures NoDuplicates(a, cmp)
  {
    if a != [] {
      var n := |b| - 1;
      var m := |a| - 1;
      assert b == b[..n] + [b[n]];
      NoDuplicatesSnoc(b[..n], b[n], cmp);
      if a[m] == b[n] && Subsequence(a[..m], b[..n]) {
        SubsequenceNoDuplicates(a[..m], b[..n], cmp);
        SubsequenceMembers(a[..m], b[..n]);
        assert cmp.Key(a[m]) !in KeySet(a[..m], cmp);
        NoDuplicatesSnoc(a[..m], a[m], cmp);
        assert a == a[..m] + [a[m]];
      } else {
        SubsequenceNoDuplicates(a, b[..n], cmp);
      }
    }
  }

  // ---------------------------------------------------------------------
  // Distinct(comparer)

  /**
   * `Distinct(cmp)` as it streams its input: an element is passed on when
   * its key is not yet in `seen`, and its key is then added to `seen`.
   */
  function DistinctFrom(xs: seq<string>, cmp: Comparer, seen: set<string>): seq<string>
  {
    if xs == [] then []
    else if cmp.Key(xs[0]) in seen then DistinctFrom(xs[1..], cmp, seen)
    else [xs[0]] + DistinctFrom(xs[1..], cmp, seen + {cmp.Key(xs[0])})
  }

  function Distinct(xs: seq<string>, cmp: Comparer): seq<string>
  {
    DistinctFrom(xs, cmp, {})
  }

  /** No element before position `i` is equal to `xs[i]` under `cmp`. */
  predicate IsFirst(xs: seq<string>, cmp: Comparer, i: int)
    requires 0 <= i < |xs|
  {
    forall j :: 0 <= j < i ==> cmp.Key(xs[j]) != cmp.Key(xs[i])
  }

  /** Reference description: the elements at first-occurrence positions, in order. */
  function FirstOccurrences(xs: seq<string>, cmp: Comparer): seq<string>
  {
    if xs == [] then []
    else
      var n := |xs| - 1;
      FirstOccurrences(xs[..n], cmp) + (if IsFirst(xs, cmp, n) then [xs[n]] else [])
  }

  lemma {:induction false} DistinctFromSnoc(xs: seq<string>, x: string, cmp: Comparer, seen: set<string>)
    ensures DistinctFrom(xs + [x], cmp, seen)
         == DistinctFrom(xs, cmp, seen) + (if cmp.Key(x) in seen + KeySet(xs, cmp) then [] else [x])
  {
    if xs == [] {
      assert KeySet(xs, cmp) == {};
      assert [] + [x] == [x];
    } else {
      var y, ys := xs[0], xs[1..];
      assert xs == [y] + ys;
      assert (xs + [x])[0] == y && (xs + [x])[1..] == ys + [x];
      KeySetCons(y, ys, cmp);
      if cmp.Key(y) in seen {
        DistinctFromSnoc(ys, x, cmp, seen);
        assert DistinctFrom(xs + [x], cmp, seen) == DistinctFrom(ys + [x], cmp, seen);
        assert DistinctFrom(xs, cmp, seen) == DistinctFrom(ys, cmp, seen);
        assert seen + KeySet(xs, cmp) == seen + KeySet(ys, cmp);
      } else {
        var seen' := seen + {cmp.Key(y)};
        DistinctFromSnoc(ys, x, cmp, seen');
        assert DistinctFrom(xs + [x], cmp, seen) == [y] + DistinctFrom(ys + [x], cmp, seen');
        assert DistinctFrom(xs, cmp, seen) == [y] + DistinctFrom(ys, cmp, seen');
        assert seen' + KeySet(ys, cmp) == seen + KeySet(xs, cmp);
        ConcatAssoc([y], DistinctFrom(ys, cmp, seen'), if cmp.Key(x) in seen + KeySet(xs, cmp) then [] else [x]);
      }
    }
  }

  lemma DistinctSnoc(xs: seq<string>, x: string, cmp: Comparer)
    ensures Distinct(xs + [x], cmp)
         == Distinct(xs, cmp) + (if cmp.Key(x) in KeySet(xs, cmp) then [] else [x])
  {
    DistinctFromSnoc(xs, x, cmp, {});
    assert {} + KeySet(xs, cmp) == KeySet(xs, cmp);
  }

  lemma IsFirstLast(xs: seq<string>, cmp: Comparer)
    requires xs != []
    ensures IsFirst(xs, cmp, |xs| - 1) <==> cmp.Key(xs[|xs| - 1]) !in KeySet(xs[..|xs| - 1], cmp)
  {
    var n := |xs| - 1;
    if !IsFirst(xs, cmp, n) {
      var j :| 0 <= j < n && cmp.Key(xs[j]) == cmp.Key(xs[n]);
      assert xs[j] in xs[..n];
    }
    if cmp.Key(xs[n]) in KeySet(xs[..n], cmp) {
      var y :| y in xs[..n] && cmp.Key(y) == cmp.Key(xs[n]);
      var j :| 0 <= j < n && xs[..n][j] == y;
      assert xs[j] == y;
    }
  }

  /** The streaming `Distinct` keeps exactly the first occurrences. */
  lemma {:induction false} DistinctIsFirstOccurrences(xs: seq<string>, cmp: Comparer)
    ensures Distinct(xs, cmp) == FirstOccurrences(xs, cmp)
  {
    if xs != [] {
      var n := |xs| - 1;
      DistinctIsFirstOccurrences(xs[..n], cmp);
      DistinctSnoc(xs[..n], xs[n], cmp);
      IsFirstLast(xs, cmp);
      assert xs[..n] + [xs[n]] == xs;
    }
  }

  lemma {:induction false} FirstOccurrencesMembers(xs: seq<string>, cmp: Comparer)
    ensures forall x :: x in FirstOccurrences(xs, cmp) <==>
      exists i :: 0 <= i < |xs| && xs[i] == x && IsFirst(xs, cmp, i)
  {
    if xs != [] {
      var n := |xs| - 1;
      var init := xs[..n];
      FirstOccurrencesMembers(init, cmp);
      assert forall i :: 0 <= i < n ==> init[i] == xs[i];
      assert forall i :: 0 <= i < n ==> (IsFirst(init, cmp, i) <==> IsFirst(xs, cmp, i));
      forall x | x in FirstOccurrences(xs, cmp)
        ensures exists i :: 0 <= i < |xs| && xs[i] == x && IsFirst(xs, cmp, i)
      {
        if x in FirstOccurrences(init, cmp) {
          var i :| 0 <= i < n && init[i] == x && IsFirst(init, cmp, i);
          assert xs[i] == x && IsFirst(xs, cmp, i);
        } else {
          assert xs[n] == x && IsFirst(xs, cmp, n);
        }
      }
      forall x | exists i :: 0 <= i < |xs| && xs[i] == x && IsFirst(xs, cmp, i)
        ensures x in FirstOccurrences(xs, cmp)
      {
        var i :| 0 <= i < |xs| && xs[i] == x && IsFirst(xs, cmp, i);
        if i < n {
          assert init[i] == x && IsFirst(init, cmp, i);
        }
      }
    }
  }

  lemma {:induction false} FirstOccurrencesSubsequence(xs: seq<string>, cmp: Comparer)
    ensures Subsequence(FirstOccurrences(xs, cmp), xs)
  {
    if xs != [] {
      var n := |xs| - 1;
      var init := xs[..n];
      var fo := FirstOccurrences(init, cmp);
      FirstOccurrencesSubsequence(init, cmp);
      var last := if IsFirst(xs, cmp, n) then [xs[n]] else [];
      SubsequenceSnocMaybe(fo, init, xs[n], last);
      assert init + [xs[n]] == xs;
    }
  }

  lemma {:induction false} FirstOccurrencesKeys(xs: seq<string>, cmp: Comparer)
    ensures KeySet(FirstOccurrences(xs, cmp), cmp) == KeySet(xs, cmp)
    ensures NoDuplicates(FirstOccurrences(xs, cmp), cmp)
  {
    if xs == [] {
      assert KeySet(xs, cmp) == {};
      assert KeySet([], cmp) == {};
    } else {
      var n := |xs| - 1;
      var init := xs[..n];
      var fo := FirstOccurrences(init, cmp);
      FirstOccurrencesKeys(init, cmp);
      IsFirstLast(xs, cmp);
      KeySetSnoc(init, xs[n], cmp);
      assert init + [xs[n]] == xs;
      if IsFirst(xs, cmp, n) {
        KeySetSnoc(fo, xs[n], cmp);
        NoDuplicatesSnoc(fo, xs[n], cmp);
      }
    }
  }

  lemma {:induction false} NoDuplicatesDistinctIdentity(xs: seq<string>, cmp: Comparer)
    requires NoDuplicates(xs, cmp)
    ensures Distinct(xs, cmp) == xs
  {
    if xs != [] {
      var n := |xs| - 1;
      var init := xs[..n];
      assert init + [xs[n]] == xs;
      NoDuplicatesSnoc(init, xs[n], cmp);
      NoDuplicatesDistinctIdentity(init, cmp);
      DistinctSnoc(init, xs[n], cmp);
    }
  }

  /**
   * What `Distinct(cmp)` promises: no two results are equal under `cmp`; the
   * result is the input with elements left out, in the original order; an
   * element survives exactly when it is the first of its class, with its own
   * spelling; and every class of the input is still represented.
   */
  lemma DistinctSpec(xs: seq<string>, cmp: Comparer)
    ensures NoDuplicates(Distinct(xs, cmp), cmp)
    ensures Subsequence(Distinct(xs, cmp), xs)
    ensures forall x :: x in Distinct(xs, cmp) <==>
      exists i :: 0 <= i < |xs| && xs[i] == x && IsFirst(xs, cmp, i)
    ensures KeySet(Distinct(xs, cmp), cmp) == KeySet(xs, cmp)
    ensures |Distinct(xs, cmp)| <= |xs|
  {
    DistinctIsFirstOccurrences(xs, cmp);
    FirstOccurrencesMembers(xs, cmp);
    FirstOccurrencesSubsequence(xs, cmp);
    FirstOccurrencesKeys(xs, cmp);
    SubsequenceMembers(Distinct(xs, cmp), xs);
  }

  lemma DistinctIdempotent(xs: seq<string>, cmp: Comparer)
    ensures Distinct(Distinct(xs, cmp), cmp) == Distinct(xs, cmp)
  {
    DistinctSpec(xs, cmp);
    NoDuplicatesDistinctIdentity(Distinct(xs, cmp), cmp);
  }

  // ---------------------------------------------------------------------
  // GroupBy(key).Where(g => g.Count() > 1).Select(g => g.Key)

  /** A group of `GroupBy`, by its key and its number of elements. */
  datatype Group = Group(key: string, count: nat)

  /** Puts one more element with key `k` into the groups built so far. */
  function AddToGroups(gs: seq<Group>, k: string): seq<Group>
  {
    if gs == [] then [Group(k, 1)]
    else if gs[0].key == k then [Group(k, gs[0].count + 1)] + gs[1..]
    else [gs[0]] + AddToGroups(gs[1..], k)
  }

  /** `keys.GroupBy(x => x)`, ordinal key equality, groups in first-key order. */
  function GroupBy(keys: seq<string>): seq<Group>
  {
    if keys == [] then []
    else AddToGroups(GroupBy(keys[..|keys| - 1]), keys[|keys| - 1])
  }

  /** `.Where(g => g.Count() > 1).Select(g => g.Key)`. */
  function RepeatedGroupKeys(gs: seq<Group>): seq<string>
  {
    if gs == [] then []
    else
      var n := |gs| - 1;
      RepeatedGroupKeys(gs[..n]) + (if gs[n].count > 1 then [gs[n].key] else [])
  }

  /** The keys occurring more than once in `keys`, as the LINQ chain yields them. */
  function RepeatedKeys(keys: seq<string>): seq<string>
  {
    RepeatedGroupKeys(GroupBy(keys))
  }

  function GroupKeys(gs: seq<Group>): (ks: seq<string>)
    ensures |ks| == |gs|
  {
    seq(|gs|, i requires 0 <= i < |gs| => gs[i].key)
  }

  /** `gs` has one group per distinct key of `keys`, in first-occurrence order, with its count. */
  predicate GroupsOf(gs: seq<Group>, keys: seq<string>)
  {
    && GroupKeys(gs) == Distinct(keys, Ordinal)
    && forall i :: 0 <= i < |gs| ==> gs[i].count == Count(keys, gs[i].key)
  }

  lemma {:induction false} AddToExistingGroup(gs: seq<Group>, k: string, p: nat)
    requires p < |gs| && gs[p].key == k
    requires forall q :: 0 <= q < p ==> gs[q].key != k
    ensures AddToGroups(gs, k) == gs[p := Group(k, gs[p].count + 1)]
  {
    if p > 0 {
      AddToExistingGroup(gs[1..], k, p - 1);
    }
  }

  lemma {:induction false} AddToNewGroup(gs: seq<Group>, k: string)
    requires forall q :: 0 <= q < |gs| ==> gs[q].key != k
    ensures AddToGroups(gs, k) == gs + [Group(k, 1)]
  {
    if gs != [] {
      AddToNewGroup(gs[1..], k);
    }
  }

  /** Under ordinal comparison the distinct keys are exactly the keys, positioned as the groups. */
  lemma GroupsOfKeys(gs: seq<Group>, keys: seq<string>)
    requires GroupsOf(gs, keys)
    ensures forall x :: x in Distinct(keys, Ordinal) <==> x in keys
    ensures forall i :: 0 <= i < |gs| ==> gs[i].key == Distinct(keys, Ordinal)[i]
    ensures NoDuplicates(Distinct(keys, Ordinal), Ordinal)
  {
    var d := Distinct(keys, Ordinal);
    DistinctSpec(keys, Ordinal);
    OrdinalKeySet(keys);
    OrdinalKeySet(d);
    forall i | 0 <= i < |gs| ensures gs[i].key == d[i] {
      assert GroupKeys(gs)[i] == gs[i].key;
    }
  }

  /** A key seen before increments its group and gives no new group. */
  lemma GroupsOfSnocExisting(gs: seq<Group>, init: seq<string>, k: string, p: nat)
    requires GroupsOf(gs, init) && k in init
    requires p < |gs| && gs[p].key == k
    requires forall q :: 0 <= q < |gs| && q != p ==> gs[q].key != k
    ensures GroupsOf(AddToGroups(gs, k), init + [k])
  {
    AddToExistingGroup(gs, k, p);
    var r := AddToGroups(gs, k);
    DistinctSnoc(init, k, Ordinal);
    OrdinalKeySet(init);
    assert GroupKeys(r) == GroupKeys(gs);
    forall i | 0 <= i < |r| ensures r[i].count == Count(init + [k], r[i].key) {
      CountSnoc(init, k, r[i].key);
    }
  }

  /** A key not seen before opens a new last group of one. */
  lemma GroupsOfSnocNew(gs: seq<Group>, init: seq<string>, k: string)
    requires GroupsOf(gs, init) && k !in init
    requires forall q :: 0 <= q < |gs| ==> gs[q].key != k
    ensures GroupsOf(AddToGroups(gs, k), init + [k])
  {
    AddToNewGroup(gs, k);
    var r := AddToGroups(gs, k);
    DistinctSnoc(init, k, Ordinal);
    OrdinalKeySet(init);
    assert GroupKeys(r) == GroupKeys(gs) + [k];
    CountMember(init, k);
    forall i | 0 <= i < |r| ensures r[i].count == Count(init + [k], r[i].key) {
      CountSnoc(init, k, r[i].key);
    }
  }

  /** Adding one more key to the groups of `init` gives the groups of `init + [k]`. */
  lemma GroupsOfSnoc(gs: seq<Group>, init: seq<string>, k: string)
    requires GroupsOf(gs, init)
    ensures GroupsOf(AddToGroups(gs, k), init + [k])
  {
    var d := Distinct(init, Ordinal);
    GroupsOfKeys(gs, init);
    if k in init {
      var p :| 0 <= p < |d| && d[p] == k;
      forall q | 0 <= q < |gs| && q != p ensures gs[q].key != k {
        if q < p {
          assert Ordinal.Key(d[q]) != Ordinal.Key(d[p]);
        } else {
          assert Ordinal.Key(d[p]) != Ordinal.Key(d[q]);
        }
      }
      GroupsOfSnocExisting(gs, init, k, p);
    } else {
      forall q | 0 <= q < |gs| ensures gs[q].key != k {
        assert d[q] in d;
      }
      GroupsOfSnocNew(gs, init, k);
    }
  }

  /** `GroupBy` gives one group per distinct key, in first-occurrence order, with its count. */
  lemma {:induction false} GroupByCounts(keys: seq<string>)
    ensures GroupsOf(GroupBy(keys), keys)
  {
    if keys == [] {
      assert GroupKeys([]) == [];
    } else {
      var n := |keys| - 1;
      GroupByCounts(keys[..n]);
      GroupsOfSnoc(GroupBy(keys[..n]), keys[..n], keys[n]);
      assert keys[..n] + [keys[n]] == keys;
    }
  }

  lemma {:induction false} RepeatedGroupKeysOrder(gs: seq<Group>)
    ensures Subsequence(RepeatedGroupKeys(gs), GroupKeys(gs))
  {
    if gs != [] {
      var n := |gs| - 1;
      var init := gs[..n];
      var r := RepeatedGroupKeys(init);
      RepeatedGroupKeysOrder(init);
      assert GroupKeys(gs) == GroupKeys(init) + [gs[n].key];
      SubsequenceSnoc(r, GroupKeys(init), gs[n].key);
      if gs[n].count > 1 {
        assert RepeatedGroupKeys(gs) == r + [gs[n].key];
      } else {
        assert RepeatedGroupKeys(gs) == r;
      }
    }
  }

  lemma {:induction false} RepeatedGroupKeysMembers(gs: seq<Group>)
    ensures forall x :: x in RepeatedGroupKeys(gs) <==>
      exists i :: 0 <= i < |gs| && gs[i].key == x && gs[i].count > 1
  {
    if gs != [] {
      var n := |gs| - 1;
      var init := gs[..n];
      RepeatedGroupKeysMembers(init);
      forall x | x in RepeatedGroupKeys(gs)
        ensures exists i :: 0 <= i < |gs| && gs[i].key == x && gs[i].count > 1
      {
        if x in RepeatedGroupKeys(init) {
          var i :| 0 <= i < n && init[i].key == x && init[i].count > 1;
          assert gs[i] == init[i];
        } else {
          assert gs[n].key == x && gs[n].count > 1;
        }
      }
      forall x | exists i :: 0 <= i < |gs| && gs[i].key == x && gs[i].count > 1
        ensures x in RepeatedGroupKeys(gs)
      {
        var i :| 0 <= i < |gs| && gs[i].key == x && gs[i].count > 1;
        if i < n {
          assert init[i] == gs[i];
        }
      }
    }
  }

  /**
   * The duplicate report: exactly the keys that occur at least twice, each
   * once, in the order of their first occurrence (ordinal comparison).
   */
  lemma RepeatedKeysSpec(keys: seq<string>)
    ensures forall x :: x in RepeatedKeys(keys) <==> Count(keys, x) >= 2
    ensures NoDuplicates(RepeatedKeys(keys), Ordinal)
    ensures Subsequence(RepeatedKeys(keys), Distinct(keys, Ordinal))
  {
    var gs := GroupBy(keys);
    var d := Distinct(keys, Ordinal);
    GroupByCounts(keys);
    RepeatedGroupKeysOrder(gs);
    RepeatedGroupKeysMembers(gs);
    DistinctSpec(keys, Ordinal);
    OrdinalKeySet(keys);
    OrdinalKeySet(d);
    SubsequenceNoDuplicates(RepeatedKeys(keys), d, Ordinal);
    assert forall i :: 0 <= i < |gs| ==> gs[i].key == d[i] by {
      assert forall i :: 0 <= i < |gs| ==> GroupKeys(gs)[i] == gs[i].key;
    }
    forall x ensures x in RepeatedKeys(keys) <==> Count(keys, x) >= 2 {
      CountMember(keys, x);
      if Count(keys, x) >= 2 {
        var i :| 0 <= i < |d| && d[i] == x;
        assert gs[i].key == x && gs[i].count > 1;
      }
    }
  }

  // ---------------------------------------------------------------------
  // Where(x => set.Contains(x))

  /** The elements of `xs` whose key under `cmp` is in `keys`, in order, repeats kept. */
  function WhereKeyIn(xs: seq<string>, cmp: Comparer, keys: set<string>): seq<string>
  {
    if xs == [] then []
    else
      var n := |xs| - 1;
      WhereKeyIn(xs[..n], cmp, keys) + (if cmp.Key(xs[n]) in keys then [xs[n]] else [])
  }

  /**
   * The filter keeps order and, for each element of the set, every one of its
   * occurrences; it keeps nothing else.
   */
  lemma {:induction false} WhereKeyInSpec(xs: seq<string>, cmp: Comparer, keys: set<string>)
    ensures Subsequence(WhereKeyIn(xs, cmp, keys), xs)
    ensures forall x :: Count(WhereKeyIn(xs, cmp, keys), x)
                     == if cmp.Key(x) in keys then Count(xs, x) else 0
  {
    if xs != [] {
      var n := |xs| - 1;
      var init, y := xs[..n], xs[n];
      var r := WhereKeyIn(init, cmp, keys);
      WhereKeyInSpec(init, cmp, keys);
      SubsequenceSnoc(r, init, y);
      assert init + [y] == xs;
      var r' := WhereKeyIn(xs, cmp, keys);
      if cmp.Key(y) in keys {
        assert r' == r + [y];
      } else {
        assert r' == r;
      }
      forall x ensures Count(r', x) == if cmp.Key(x) in keys then Count(xs, x) else 0 {
        CountSnoc(init, y, x);
        if cmp.Key(y) in keys {
          CountSnoc(r, y, x);
          if x == y {
            assert cmp.Key(x) in keys;
          }
        } else {
          assert r' == r;
          if x == y {
            assert cmp.Key(x) !in keys;
          }
        }
      }
    }
  }

  /** An element is kept exactly when it occurs and its key is in the set. */
  lemma {:induction false} WhereKeyInMembers(xs: seq<string>, cmp: Comparer, keys: set<string>)
    ensures forall x :: x in WhereKeyIn(xs, cmp, keys) <==> x in xs && cmp.Key(x) in keys
  {
    if xs != [] {
      var n := |xs| - 1;
      WhereKeyInMembers(xs[..n], cmp, keys);
      assert xs[..n] + [xs[n]] == xs;
    }
  }
}
