/** What sorting a table's application list means: insertion in arrival order, and its uniqueness. */
module StableSort {
  import opened Bits
  import opened HashBuckets

  /** A comparison function over element keys, as strcmp is over strings. */
  type Cmp = (Key, Key) -> int

  ghost predicate TotalPreorder(cmp: Cmp) {
    && (forall a, b :: cmp(a, b) <= 0 || cmp(b, a) <= 0)
    && (forall a, b, c :: cmp(a, b) <= 0 && cmp(b, c) <= 0 ==> cmp(a, c) <= 0)
  }

  ghost predicate Sorted<V>(s: seq<Handle<V>>, cmp: Cmp) {
    forall i, j :: 0 <= i < j < |s| ==> cmp(s[i].key, s[j].key) <= 0
  }

  ghost predicate Tie(a: Key, b: Key, cmp: Cmp) {
    cmp(a, b) <= 0 && cmp(b, a) <= 0
  }

  /** The elements that compare equal to k, in list order. */
  ghost function Ties<V>(s: seq<Handle<V>>, k: Key, cmp: Cmp): seq<Handle<V>> {
    if s == [] then [] else (if Tie(s[0].key, k, cmp) then [s[0]] else []) + Ties(s[1..], k, cmp)
  }

  ghost predicate SameGroups<V>(s: seq<Handle<V>>, t: seq<Handle<V>>, cmp: Cmp) {
    forall k :: Ties(s, k, cmp) == Ties(t, k, cmp)
  }

  /** x placed before the first element that compares greater. */
  ghost function Insert<V>(s: seq<Handle<V>>, x: Handle<V>, cmp: Cmp): (r: seq<Handle<V>>)
    ensures |r| == |s| + 1 && multiset(r) == multiset(s) + multiset{x}
  {
    if s == [] then [x]
    else if cmp(s[0].key, x.key) > 0 then [x] + s
    else
      assert s == [s[0]] + s[1..];
      [s[0]] + Insert(s[1..], x, cmp)
  }

  /** Whatever the comparison is, x comes behind elements that do not compare greater, right before one that does. */
  lemma {:induction false} InsertMeans<V>(s: seq<Handle<V>>, x: Handle<V>, cmp: Cmp) returns (k: nat)
    ensures k <= |s| && Insert(s, x, cmp) == s[..k] + [x] + s[k..]
    ensures forall j | 0 <= j < k :: cmp(s[j].key, x.key) <= 0
    ensures k < |s| ==> cmp(s[k].key, x.key) > 0
  {
    InsertStep(s, x, cmp);
    hide Insert;
    k := 0;
    if s != [] && cmp(s[0].key, x.key) <= 0 {
      var t := s[1..];
      var i := InsertMeans(t, x, cmp);
      k := i + 1;
      assert s[..k] == [s[0]] + t[..i] && s[k..] == t[i..];
      forall j | 0 <= j < k
        ensures cmp(s[j].key, x.key) <= 0
      {
        assert j > 0 ==> s[j] == t[j - 1];
      }
    }
  }

  lemma InsertStep<V>(s: seq<Handle<V>>, x: Handle<V>, cmp: Cmp)
    ensures Insert(s, x, cmp) ==
            if s == [] || cmp(s[0].key, x.key) > 0 then [x] + s else [s[0]] + Insert(s[1..], x, cmp)
  {
  }

  /** The stable sort of s: its elements inserted one by one, in order. */
  ghost function SortOf<V>(s: seq<Handle<V>>, cmp: Cmp): (r: seq<Handle<V>>)
    ensures |r| == |s| && multiset(r) == multiset(s)
  {
    if s == [] then []
    else
      assert s == s[..|s| - 1] + [s[|s| - 1]];
      Insert(SortOf(s[..|s| - 1], cmp), s[|s| - 1], cmp)
  }

  lemma SortOfSnoc<V>(s: seq<Handle<V>>, x: Handle<V>, cmp: Cmp)
    ensures SortOf(s + [x], cmp) == Insert(SortOf(s, cmp), x, cmp)
  {
    assert (s + [x])[..|s|] == s;
  }

  lemma SortedCons<V>(x: Handle<V>, s: seq<Handle<V>>, cmp: Cmp)
    requires Sorted(s, cmp) && forall h | h in s :: cmp(x.key, h.key) <= 0
    ensures Sorted([x] + s, cmp)
  {
  }

  lemma {:induction false} InsertKeepsSorted<V>(s: seq<Handle<V>>, x: Handle<V>, cmp: Cmp)
    requires TotalPreorder(cmp) && Sorted(s, cmp)
    ensures Sorted(Insert(s, x, cmp), cmp)
  {
    if s != [] && cmp(s[0].key, x.key) <= 0 {
      InsertKeepsSorted(s[1..], x, cmp);
      var r := Insert(s[1..], x, cmp);
      forall h | h in r
        ensures cmp(s[0].key, h.key) <= 0
      {
        assert h in multiset(r);
      }
      SortedCons(s[0], r, cmp);
    } else if s != [] {
      forall h | h in s
        ensures cmp(x.key, h.key) <= 0
      {
        assert cmp(x.key, s[0].key) <= 0 && cmp(s[0].key, s[0].key) <= 0;
      }
      SortedCons(x, s, cmp);
    }
  }

  lemma {:induction false} SortOfIsSorted<V>(s: seq<Handle<V>>, cmp: Cmp)
    requires TotalPreorder(cmp)
    ensures Sorted(SortOf(s, cmp), cmp)
  {
    if s != [] {
      SortOfIsSorted(s[..|s| - 1], cmp);
      InsertKeepsSorted(SortOf(s[..|s| - 1], cmp), s[|s| - 1], cmp);
    }
  }

  lemma {:induction false} TiesSplit<V>(s: seq<Handle<V>>, t: seq<Handle<V>>, k: Key, cmp: Cmp)
    ensures Ties(s + t, k, cmp) == Ties(s, k, cmp) + Ties(t, k, cmp)
  {
    if s == [] {
      assert s + t == t;
    } else {
      hide Tie;
      assert (s + t)[1..] == s[1..] + t;
      TiesSplit(s[1..], t, k, cmp);
      var first := if Tie(s[0].key, k, cmp) then [s[0]] else [];
      assert first + (Ties(s[1..], k, cmp) + Ties(t, k, cmp)) == first + Ties(s[1..], k, cmp) + Ties(t, k, cmp);
    }
  }

  lemma {:induction false} NoTies<V>(s: seq<Handle<V>>, k: Key, cmp: Cmp)
    requires forall h | h in s :: !Tie(h.key, k, cmp)
    ensures Ties(s, k, cmp) == []
  {
    if s != [] {
      NoTies(s[1..], k, cmp);
    }
  }

  lemma {:induction false} TiesOfInsert<V>(s: seq<Handle<V>>, x: Handle<V>, k: Key, cmp: Cmp)
    requires TotalPreorder(cmp) && Sorted(s, cmp)
    ensures Ties(Insert(s, x, cmp), k, cmp) == Ties(s + [x], k, cmp)
  {
    if s == [] {
      assert s + [x] == [x];
    } else if cmp(s[0].key, x.key) > 0 {
      TiesSplit(s, [x], k, cmp);
      assert ([x] + s)[1..] == s;
      if Tie(x.key, k, cmp) {
        forall h | h in s
          ensures !Tie(h.key, k, cmp)
        {
          assert cmp(s[0].key, h.key) <= 0 by {
            assert cmp(s[0].key, s[0].key) <= 0;
          }
        }
        NoTies(s, k, cmp);
      }
    } else {
      TiesOfInsert(s[1..], x, k, cmp);
      assert (s + [x])[1..] == s[1..] + [x];
    }
  }

  /** Sorting keeps every group of equal elements in its original order. */
  lemma {:induction false} SortOfIsStable<V>(s: seq<Handle<V>>, k: Key, cmp: Cmp)
    requires TotalPreorder(cmp)
    ensures Ties(SortOf(s, cmp), k, cmp) == Ties(s, k, cmp)
  {
    if s != [] {
      var t, x := s[..|s| - 1], s[|s| - 1];
      assert s == t + [x];
      SortOfIsSorted(t, cmp);
      TiesOfInsert(SortOf(t, cmp), x, k, cmp);
      SortOfIsStable(t, k, cmp);
      TiesSplit(SortOf(t, cmp), [x], k, cmp);
      TiesSplit(t, [x], k, cmp);
    }
  }

  lemma {:induction false} TiesMembers<V>(s: seq<Handle<V>>, k: Key, cmp: Cmp)
    ensures forall h :: h in Ties(s, k, cmp) <==> h in s && Tie(h.key, k, cmp)
  {
    if s != [] {
      TiesMembers(s[1..], k, cmp);
      assert s == [s[0]] + s[1..];
    }
  }

  lemma SameGroupsSameHead<V>(s: seq<Handle<V>>, t: seq<Handle<V>>, cmp: Cmp)
    requires TotalPreorder(cmp) && Sorted(s, cmp) && Sorted(t, cmp) && SameGroups(s, t, cmp)
    requires s != []
    ensures t != [] && s[0] == t[0]
  {
    var a := s[0].key;
    assert cmp(a, a) <= 0;
    TiesMembers(s, a, cmp);
    TiesMembers(t, a, cmp);
    assert s[0] in Ties(s, a, cmp);
    var b := t[0].key;
    assert cmp(b, b) <= 0;
    TiesMembers(s, b, cmp);
    TiesMembers(t, b, cmp);
    assert t[0] in Ties(t, b, cmp);
    assert Tie(a, b, cmp);
    assert Ties(s, a, cmp)[0] == s[0] && Ties(t, a, cmp)[0] == t[0];
  }

  lemma SameGroupsTail<V>(s: seq<Handle<V>>, t: seq<Handle<V>>, cmp: Cmp)
    requires s != [] && t != [] && s[0] == t[0] && SameGroups(s, t, cmp)
    ensures SameGroups(s[1..], t[1..], cmp)
  {
    hide Tie;
    forall k
      ensures Ties(s[1..], k, cmp) == Ties(t[1..], k, cmp)
    {
      var n := if Tie(s[0].key, k, cmp) then 1 else 0;
      assert Ties(s, k, cmp)[n..] == Ties(s[1..], k, cmp);
      assert Ties(t, k, cmp)[n..] == Ties(t[1..], k, cmp);
    }
  }

  /** A sorted list is determined by its groups of equal elements. */
  lemma {:induction false} SortedByGroups<V>(s: seq<Handle<V>>, t: seq<Handle<V>>, cmp: Cmp)
    requires TotalPreorder(cmp) && Sorted(s, cmp) && Sorted(t, cmp)
    requires SameGroups(s, t, cmp)
    ensures s == t
  {
    hide SameGroups;
    if s == [] {
      if t != [] {
        SameGroupsSymmetric(s, t, cmp);
        SameGroupsSameHead(t, s, cmp);
      }
    } else {
      SameGroupsSameHead(s, t, cmp);
      SameGroupsTail(s, t, cmp);
      SortedByGroups(s[1..], t[1..], cmp);
      assert s == [s[0]] + s[1..] && t == [t[0]] + t[1..];
    }
  }

  lemma SameGroupsSymmetric<V>(s: seq<Handle<V>>, t: seq<Handle<V>>, cmp: Cmp)
    requires SameGroups(s, t, cmp)
    ensures SameGroups(t, s, cmp)
  {
  }

  /** There is one stable sort: anything sorted that keeps the groups of s in order is SortOf(s). */
  lemma StableSortIsUnique<V>(s: seq<Handle<V>>, t: seq<Handle<V>>, cmp: Cmp)
    requires TotalPreorder(cmp)
    ensures t == SortOf(s, cmp) <==> Sorted(t, cmp) && SameGroups(t, s, cmp)
  {
    hide Sorted, SortOf, Ties, Tie;
    SortOfIsSorted(s, cmp);
    forall k
      ensures Ties(SortOf(s, cmp), k, cmp) == Ties(s, k, cmp)
    {
      SortOfIsStable(s, k, cmp);
    }
    if Sorted(t, cmp) && SameGroups(t, s, cmp) {
      SortedByGroups(t, SortOf(s, cmp), cmp);
    }
  }

  /** Sorting a sorted list changes nothing. */
  lemma SortOfSorted<V>(s: seq<Handle<V>>, cmp: Cmp)
    requires TotalPreorder(cmp) && Sorted(s, cmp)
    ensures SortOf(s, cmp) == s
  {
    StableSortIsUnique(s, s, cmp);
  }

  // ------------------------------------------------------------------ merging

  /** The merge step: the left run wins ties. */
  ghost function Merge<V>(a: seq<Handle<V>>, b: seq<Handle<V>>, cmp: Cmp): (r: seq<Handle<V>>)
    ensures |r| == |a| + |b| && multiset(r) == multiset(a) + multiset(b)
    decreases |a| + |b|
  {
    if a == [] then b
    else if b == [] then a
    else
      assert a == [a[0]] + a[1..] && b == [b[0]] + b[1..];
      if cmp(a[0].key, b[0].key) <= 0 then [a[0]] + Merge(a[1..], b, cmp)
      else [b[0]] + Merge(a, b[1..], cmp)
  }

  lemma MergeNone<V>(a: seq<Handle<V>>, cmp: Cmp)
    ensures Merge(a, [], cmp) == a
  {
  }

  lemma {:induction false} MergeOne<V>(a: seq<Handle<V>>, x: Handle<V>, cmp: Cmp)
    ensures Merge(a, [x], cmp) == Insert(a, x, cmp)
  {
    if a != [] && cmp(a[0].key, x.key) <= 0 {
      MergeOne(a[1..], x, cmp);
    }
  }

  lemma {:induction false} MergeInsert<V>(a: seq<Handle<V>>, b: seq<Handle<V>>, x: Handle<V>, cmp: Cmp)
    requires TotalPreorder(cmp)
    ensures Merge(a, Insert(b, x, cmp), cmp) == Insert(Merge(a, b, cmp), x, cmp)
    decreases |a| + |b|
  {
    if a == [] {
    } else if b == [] {
      MergeOne(a, x, cmp);
    } else if cmp(b[0].key, x.key) > 0 {
      assert Insert(b, x, cmp) == [x] + b;
      if cmp(a[0].key, x.key) <= 0 {
        MergeInsert(a[1..], b, x, cmp);
      } else {
        assert ([x] + b)[1..] == b;
      }
    } else {
      assert Insert(b, x, cmp)[1..] == Insert(b[1..], x, cmp);
      if cmp(a[0].key, b[0].key) <= 0 {
        MergeInsert(a[1..], b, x, cmp);
      } else {
        MergeInsert(a, b[1..], x, cmp);
      }
    }
  }

  /** Merging two sorted runs sorts their concatenation. */
  lemma {:induction false} MergeOfSorts<V>(a: seq<Handle<V>>, b: seq<Handle<V>>, cmp: Cmp)
    requires TotalPreorder(cmp)
    ensures Merge(SortOf(a, cmp), SortOf(b, cmp), cmp) == SortOf(a + b, cmp)
  {
    hide Merge, Insert, SortOf;
    if b == [] {
      assert a + b == a;
      MergeNone(SortOf(a, cmp), cmp);
    } else {
      var c, x := b[..|b| - 1], b[|b| - 1];
      MergeOfSorts(a, c, cmp);
      MergeInsert(SortOf(a, cmp), SortOf(c, cmp), x, cmp);
      SortOfSnoc(c, x, cmp);
      SortOfSnoc(a + c, x, cmp);
      assert b == c + [x] && a + b == (a + c) + [x];
    }
  }

  /** s with each block of k consecutive elements sorted. */
  ghost function BlockSort<V>(s: seq<Handle<V>>, k: nat, cmp: Cmp): (r: seq<Handle<V>>)
    requires k > 0
    ensures |r| == |s|
  {
    if |s| <= k then SortOf(s, cmp) else SortOf(s[..k], cmp) + BlockSort(s[k..], k, cmp)
  }

  lemma {:induction false} BlocksOfOne<V>(s: seq<Handle<V>>, cmp: Cmp)
    ensures BlockSort(s, 1, cmp) == s
  {
    if |s| == 0 {
    } else {
      SortOfSnoc([], s[0], cmp);
      assert [] + [s[0]] == [s[0]] == s[..1];
      if |s| > 1 {
        BlocksOfOne(s[1..], cmp);
      } else {
        assert s == [s[0]];
      }
    }
  }

  ghost function MergePass<V>(t: seq<Handle<V>>, k: nat, cmp: Cmp): seq<Handle<V>>
    requires k > 0
  {
    if t == [] then []
    else
      var m := Min(k, |t|);
      var e := Min(2 * k, |t|);
      Merge(t[..m], t[m..e], cmp) + MergePass(t[e..], k, cmp)
  }

  lemma SliceConcat<T>(a: seq<T>, b: seq<T>, e: nat)
    requires |a| <= e <= |a| + |b|
    ensures (a + b)[..|a|] == a && (a + b)[|a|..e] == b[..e - |a|] && (a + b)[e..] == b[e - |a|..]
  {
  }

  lemma PassCons<V>(t: seq<Handle<V>>, k: nat, cmp: Cmp)
    requires k > 0 && t != []
    ensures var m, e := Min(k, |t|), Min(2 * k, |t|);
            MergePass(t, k, cmp) == Merge(t[..m], t[m..e], cmp) + MergePass(t[e..], k, cmp)
  {
  }

  lemma MultisetOfSlices<T>(t: seq<T>, m: nat, e: nat)
    requires m <= e <= |t|
    ensures multiset(t[..m]) + multiset(t[m..e]) + multiset(t[e..]) == multiset(t)
  {
    assert t == t[..m] + t[m..e] + t[e..];
  }

  lemma {:induction false} PassKeepsElements<V>(t: seq<Handle<V>>, k: nat, cmp: Cmp)
    requires k > 0
    ensures multiset(MergePass(t, k, cmp)) == multiset(t)
  {
    hide Merge;
    if t != [] {
      var m, e := Min(k, |t|), Min(2 * k, |t|);
      MultisetOfSlices(t, m, e);
      PassKeepsElements(t[e..], k, cmp);
    }
  }

  lemma PassOfOneRun<V>(t: seq<Handle<V>>, k: nat, cmp: Cmp)
    requires k > 0 && |t| <= k
    ensures MergePass(t, k, cmp) == t
  {
    if t != [] {
      assert t[..|t|] == t && t[|t|..|t|] == [] && t[|t|..] == [];
      MergeNone(t, cmp);
    }
  }

  lemma PassStep<V>(a: seq<Handle<V>>, u: seq<Handle<V>>, k: nat, cmp: Cmp)
    requires |a| == k > 0
    ensures var n := Min(k, |u|);
            MergePass(a + u, k, cmp) == Merge(a, u[..n], cmp) + MergePass(u[n..], k, cmp)
  {
    SliceConcat(a, u, Min(2 * k, |a + u|));
  }

  /** A pass over lists sorted in blocks of k leaves them sorted in blocks of 2k. */
  lemma {:induction false} PassDoublesBlocks<V>(s: seq<Handle<V>>, k: nat, cmp: Cmp)
    requires TotalPreorder(cmp) && k > 0
    ensures MergePass(BlockSort(s, k, cmp), k, cmp) == BlockSort(s, 2 * k, cmp)
  {
    hide Merge, SortOf, MergePass;
    if |s| <= k {
      PassOfOneRun(BlockSort(s, k, cmp), k, cmp);
    } else if |s| <= 2 * k {
      PassOfTwoRuns(s[..k], s[k..], k, cmp);
      assert s == s[..k] + s[k..];
    } else {
      var a, b, c := s[..k], s[k..2 * k], s[2 * k..];
      BlocksSplit(a, b + c, k, cmp);
      BlocksSplit(b, c, k, cmp);
      BlocksSplit(a + b, c, 2 * k, cmp);
      assert s == a + (b + c) == (a + b) + c;
      PassStep(SortOf(a, cmp), SortOf(b, cmp) + BlockSort(c, k, cmp), k, cmp);
      SliceConcat(SortOf(b, cmp), BlockSort(c, k, cmp), k);
      MergeOfSorts(a, b, cmp);
      PassDoublesBlocks(c, k, cmp);
    }
  }

  lemma BlocksSplit<V>(a: seq<Handle<V>>, b: seq<Handle<V>>, k: nat, cmp: Cmp)
    requires |a| == k > 0 && b != []
    ensures BlockSort(a + b, k, cmp) == SortOf(a, cmp) + BlockSort(b, k, cmp)
  {
    assert (a + b)[..k] == a && (a + b)[k..] == b;
  }

  lemma PassOfTwoRuns<V>(a: seq<Handle<V>>, b: seq<Handle<V>>, k: nat, cmp: Cmp)
    requires TotalPreorder(cmp) && |a| == k > 0 && 0 < |b| <= k
    ensures MergePass(BlockSort(a + b, k, cmp), k, cmp) == SortOf(a + b, cmp)
  {
    hide Merge, SortOf, MergePass;
    BlocksSplit(a, b, k, cmp);
    var u := SortOf(b, cmp);
    PassStep(SortOf(a, cmp), u, k, cmp);
    assert u[..|u|] == u && u[|u|..] == [];
    PassOfOneRun<V>([], k, cmp);
    MergeOfSorts(a, b, cmp);
  }
}
