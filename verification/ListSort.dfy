/** The in-place bottom-up merge sort of HASH_SRT on the application list. */
module ListSort {
  import opened Sequences
  import opened Bits
  import opened HashBuckets
  import opened StableSort

  ghost function At<V>(s: seq<Handle<V>>, i: nat): Handle?<V> {
    if i < |s| then s[i] else null
  }

  ghost function Last<V>(s: seq<Handle<V>>): Handle?<V> {
    if s == [] then null else s[|s| - 1]
  }

  /** Links of a whole application list. */
  ghost predicate AppLinked<V>(s: seq<Handle<V>>)
    reads s`next, s`prev
  {
    && (forall i {:trigger s[i].next} :: 0 <= i < |s| ==> s[i].next == At(s, i + 1))
    && (forall i {:trigger s[i].prev} :: 0 <= i < |s| ==> s[i].prev == if i > 0 then s[i - 1] else null)
  }

  /** From position i up to position j the elements still have the links they had before the pass. */
  ghost predicate Unread<V>(s: seq<Handle<V>>, i: nat, j: nat)
    reads s`next
  {
    forall k {:trigger s[k].next} :: i <= k < j && k < |s| ==> s[k].next == At(s, k + 1)
  }

  /** The output of a pass so far; the last element's `next` is not yet meaningful. */
  ghost predicate Built<V>(out: seq<Handle<V>>, list: Handle?<V>, tail: Handle?<V>)
    reads out`next, out`prev
  {
    && Distinct(out) && list == First(out) && tail == Last(out)
    && (forall i {:trigger out[i].next} :: 0 <= i < |out| - 1 ==> out[i].next == out[i + 1])
    && (forall i {:trigger out[i].prev} :: 0 <= i < |out| ==> out[i].prev == if i > 0 then out[i - 1] else null)
  }

  /** Put e at the end of the output. */
  method LinkAtTail<V>(list: Handle?<V>, tail: Handle?<V>, e: Handle<V>, ghost out: seq<Handle<V>>)
    returns (list': Handle?<V>)
    requires Built(out, list, tail) && e !in out
    modifies Just(tail)`next, e`prev
    ensures Built(out + [e], list', e)
  {
    list' := list;
    if tail != null {
      tail.next := e;
    } else {
      list' := e;
    }
    e.prev := tail;
  }

  /** Step q past the run that starts at p; both stop early at the end of the list. */
  method SplitRun<V>(p: Handle<V>, insize: nat, ghost src: seq<Handle<V>>, ghost i: nat)
    returns (q: Handle?<V>, psize: nat)
    requires insize > 0 && i < |src| && p == src[i] && Unread(src, i, |src|)
    ensures psize == Min(insize, |src| - i) && q == At(src, i + psize)
  {
    q, psize := p, 0;
    var k := 0;
    while k < insize
      invariant 0 <= k <= insize && psize == k && i + k < |src| && q == src[i + k]
    {
      psize := psize + 1;
      q := q.next;
      if q == null {
        break;
      }
      k := k + 1;
    }
  }

  /** Where a merge of the runs src[i..m] and src[m..e] stands, with a and b the next positions to take. */
  ghost predicate Merging<V>(src: seq<Handle<V>>, a: nat, m: nat, b: nat, e: nat, out: seq<Handle<V>>)
    reads src`next
  {
    && Distinct(src) && a <= m <= b <= e <= |src|
    && Unread(src, a, m) && Unread(src, b, |src|)
    && (forall x, k | x in out && (a <= k < m || b <= k < |src|) :: x != src[k])
  }

  /** Take the element of the left run (position a) or of the right run (position b) to the output. */
  method TakeNext<V>(list: Handle?<V>, tail: Handle?<V>, x: Handle<V>, ghost src: seq<Handle<V>>,
                     ghost a: nat, ghost m: nat, ghost b: nat, ghost e: nat, ghost out: seq<Handle<V>>,
                     ghost left: bool)
    returns (list': Handle?<V>)
    requires Built(out, list, tail) && Merging(src, a, m, b, e, out)
    requires if left then a < m && x == src[a] else b < e && x == src[b]
    modifies Just(tail)`next, x`prev
    ensures Built(out + [x], list', x)
    ensures Merging(src, if left then a + 1 else a, m, if left then b else b + 1, e, out + [x])
  {
    assert tail != null ==> tail in out;
    list' := LinkAtTail(list, tail, x, out);
  }

  /** The inner loop: merge two neighbouring runs onto the output. */
  method MergeRuns<V>(p0: Handle?<V>, psize0: nat, q0: Handle?<V>, insize: nat,
                      list0: Handle?<V>, tail0: Handle?<V>, cmp: Cmp,
                      ghost src: seq<Handle<V>>, ghost i: nat, ghost m: nat, ghost e: nat,
                      ghost out0: seq<Handle<V>>, ghost all: set<Handle<V>>)
    returns (q: Handle?<V>, list: Handle?<V>, tail: Handle?<V>, ghost out: seq<Handle<V>>)
    requires insize > 0 && i < |src| && p0 == src[i] && q0 == At(src, m)
    requires psize0 == Min(insize, |src| - i) && m == i + psize0 && e == Min(i + 2 * insize, |src|)
    requires Merging(src, i, m, m, e, out0) && Built(out0, list0, tail0)
    requires (forall x | x in src :: x in all) && Just(tail0) <= all
    modifies all`next, all`prev
    ensures m <= e && out == out0 + Merge(src[i..m], src[m..e], cmp)
    ensures q == At(src, e) && Merging(src, m, m, e, e, out)
    ensures Built(out, list, tail) && Just(tail) <= all
  {
    hide Built, Merging, Merge;
    ghost var a, b := i, m;
    ghost var goal := out0 + Merge(src[i..m], src[m..e], cmp);
    var p, psize, qsize := p0, psize0, insize;
    q, list, tail, out := q0, list0, tail0, out0;
    while psize != 0 || (qsize != 0 && q != null)
      invariant i <= a <= m <= b <= e
      invariant psize == m - a && qsize == insize - (b - m) && q == At(src, b)
      invariant psize > 0 ==> p == src[a]
      invariant Built(out, list, tail) && Merging(src, a, m, b, e, out)
      invariant out + Merge(src[a..m], src[b..e], cmp) == goal
      invariant Just(tail) <= all
      decreases psize + qsize
    {
      ghost var left := b == e || (a < m && cmp(src[a].key, src[b].key) <= 0);
      TakeStep(src, a, m, b, e, out, cmp, left);
      var x;
      if psize == 0 {
        x := q;
        q := q.next;
        qsize := qsize - 1;
      } else if qsize == 0 || q == null {
        x := p;
        p := p.next;
        psize := psize - 1;
      } else if cmp(p.key, q.key) <= 0 {
        x := p;
        p := p.next;
        psize := psize - 1;
      } else {
        x := q;
        q := q.next;
        qsize := qsize - 1;
      }
      list := TakeNext(list, tail, x, src, a, m, b, e, out, left);
      out := out + [x];
      tail := x;
      a, b := if left then a + 1 else a, if left then b else b + 1;
    }
    assert a == m && b == e;
    MergeDone(src, m, e, out, cmp);
  }

  /** What one iteration takes, and what its link leads to. */
  lemma TakeStep<V>(src: seq<Handle<V>>, a: nat, m: nat, b: nat, e: nat, out: seq<Handle<V>>, cmp: Cmp, left: bool)
    requires Merging(src, a, m, b, e, out) && (a < m || b < e)
    requires left == (b == e || (a < m && cmp(src[a].key, src[b].key) <= 0))
    ensures var x := src[if left then a else b];
            && x.next == At(src, if left then a + 1 else b + 1)
            && out + [x] + Merge(src[if left then a + 1 else a..m], src[if left then b else b + 1..e], cmp)
               == out + Merge(src[a..m], src[b..e], cmp)
  {
    hide Merge;
    if left {
      MergeTakesLeft(src, a, m, b, e, out, cmp);
    } else {
      MergeTakesRight(src, a, m, b, e, out, cmp);
    }
  }

  lemma MergeTakesLeft<V>(src: seq<Handle<V>>, a: nat, m: nat, b: nat, e: nat, out: seq<Handle<V>>, cmp: Cmp)
    requires a < m <= b <= e <= |src|
    requires b < e ==> cmp(src[a].key, src[b].key) <= 0
    ensures out + [src[a]] + Merge(src[a + 1..m], src[b..e], cmp) == out + Merge(src[a..m], src[b..e], cmp)
  {
    assert src[a..m][1..] == src[a + 1..m];
    if b == e {
      MergeNone(src[a..m], cmp);
      MergeNone(src[a + 1..m], cmp);
      assert src[a..m] == [src[a]] + src[a + 1..m];
    }
    assert Merge(src[a..m], src[b..e], cmp) == [src[a]] + Merge(src[a + 1..m], src[b..e], cmp);
  }

  lemma MergeTakesRight<V>(src: seq<Handle<V>>, a: nat, m: nat, b: nat, e: nat, out: seq<Handle<V>>, cmp: Cmp)
    requires a <= m <= b < e <= |src|
    requires a < m ==> cmp(src[a].key, src[b].key) > 0
    ensures out + [src[b]] + Merge(src[a..m], src[b + 1..e], cmp) == out + Merge(src[a..m], src[b..e], cmp)
  {
    assert src[b..e][1..] == src[b + 1..e];
    assert src[b..e] == [src[b]] + src[b + 1..e];
    assert Merge(src[a..m], src[b..e], cmp) == [src[b]] + Merge(src[a..m], src[b + 1..e], cmp);
  }

  lemma MergeDone<V>(src: seq<Handle<V>>, m: nat, e: nat, out: seq<Handle<V>>, cmp: Cmp)
    requires m <= e <= |src|
    ensures out + Merge(src[m..m], src[e..e], cmp) == out
  {
  }

  /** How many pairs of runs of length k a list of n elements holds. */
  ghost function Runs(n: nat, k: nat): nat
    requires k > 0
  {
    if n == 0 then 0 else if n <= 2 * k then 1 else 1 + Runs(n - 2 * k, k)
  }

  /** Doubling the run length never adds runs, and removes some unless one pass is enough. */
  lemma {:induction false} RunsFall(n: nat, k: nat)
    requires k > 0
    ensures Runs(n, 2 * k) <= Runs(n, k)
    ensures Runs(n, k) > 1 ==> Runs(n, 2 * k) < Runs(n, k)
    ensures Runs(n, k) <= 1 <==> n <= 2 * k
  {
    if n > 4 * k {
      RunsFall(n - 4 * k, k);
      assert Runs(n, k) == 1 + Runs(n - 2 * k, k) == 2 + Runs(n - 4 * k, k);
    } else if n > 2 * k {
      assert Runs(n, k) == 1 + Runs(n - 2 * k, k);
    }
  }

  /** One pass of the sort: every pair of neighbouring runs merged, links of the output complete. */
  method SortPass<V>(list0: Handle<V>, insize: nat, cmp: Cmp, ghost src: seq<Handle<V>>, ghost all: set<Handle<V>>)
    returns (list: Handle?<V>, tail: Handle?<V>, nmerges: nat, ghost out: seq<Handle<V>>)
    requires insize > 0 && src != [] && list0 == src[0] && Distinct(src) && AppLinked(src)
    requires forall x | x in src :: x in all
    modifies all`next, all`prev
    ensures out == MergePass(src, insize, cmp) && nmerges == Runs(|src|, insize)
    ensures Distinct(out) && AppLinked(out) && list == First(out) && tail == Last(out)
    ensures multiset(out) == multiset(src) && |out| == |src| && forall x | x in out :: x in all
  {
    hide Merge, MergePass, Merging, Built;
    var p: Handle?<V> := list0;
    list, tail, nmerges, out := null, null, 0, [];
    ghost var i := 0;
    StartPass(src);
    while p != null
      invariant i <= |src| && p == At(src, i)
      invariant Merging(src, i, i, i, i, out) && Built(out, list, tail)
      invariant Just(tail) <= all
      invariant out + MergePass(src[i..], insize, cmp) == MergePass(src, insize, cmp)
      invariant nmerges + Runs(|src| - i, insize) == Runs(|src|, insize)
      decreases |src| - i
    {
      nmerges := nmerges + 1;
      ghost var m, e := i + Min(insize, |src| - i), Min(i + 2 * insize, |src|);
      StartRuns(src, i, m, e, out);
      PassTakesRuns(src, i, m, e, insize, out, cmp);
      var q, psize := SplitRun(p, insize, src, i);
      q, list, tail, out := MergeRuns(p, psize, q, insize, list, tail, cmp, src, i, m, e, out, all);
      EndRuns(src, m, e, out);
      i := e;
      p := q;
    }
    PassOfNothing(src, i, insize, out, cmp);
    EndPass(out, list, tail);
    CloseList(out, list, tail);
    PassKeepsElements(src, insize, cmp);
    SameElements(src, out);
    assert |multiset(out)| == |out| && |multiset(src)| == |src|;
  }

  method CloseList<V>(ghost out: seq<Handle<V>>, ghost list: Handle?<V>, tail: Handle?<V>)
    requires Built(out, list, tail)
    modifies Just(tail)`next
    ensures Distinct(out) && AppLinked(out) && list == First(out) && tail == Last(out)
  {
    if tail != null {
      tail.next := null;
    }
  }

  lemma SameElements<T>(s: seq<T>, t: seq<T>)
    requires multiset(s) == multiset(t)
    ensures forall x :: x in s <==> x in t
  {
    forall x
      ensures x in s <==> x in t
    {
      assert x in s <==> x in multiset(s);
      assert x in t <==> x in multiset(t);
    }
  }

  lemma StartPass<V>(src: seq<Handle<V>>)
    requires Distinct(src) && AppLinked(src)
    ensures Merging(src, 0, 0, 0, 0, []) && Built<V>([], null, null)
    ensures src[0..] == src
  {
  }

  lemma StartRuns<V>(src: seq<Handle<V>>, i: nat, m: nat, e: nat, out: seq<Handle<V>>)
    requires Merging(src, i, i, i, i, out) && i <= m <= e <= |src|
    ensures Merging(src, i, m, m, e, out) && Unread(src, i, |src|)
  {
  }

  lemma EndRuns<V>(src: seq<Handle<V>>, m: nat, e: nat, out: seq<Handle<V>>)
    requires Merging(src, m, m, e, e, out)
    ensures Merging(src, e, e, e, e, out)
  {
  }

  lemma SliceOfSuffix<T>(s: seq<T>, i: nat, m: nat, e: nat)
    requires m <= e && i + e <= |s|
    ensures s[i..][..m] == s[i..i + m] && s[i..][m..e] == s[i + m..i + e] && s[i..][e..] == s[i + e..]
  {
  }

  lemma PassTakesRuns<V>(src: seq<Handle<V>>, i: nat, m: nat, e: nat, k: nat, out: seq<Handle<V>>, cmp: Cmp)
    requires k > 0 && i < |src| && m == i + Min(k, |src| - i) && e == Min(i + 2 * k, |src|)
    ensures out + Merge(src[i..m], src[m..e], cmp) + MergePass(src[e..], k, cmp) == out + MergePass(src[i..], k, cmp)
  {
    hide Merge, MergePass;
    PassCons(src[i..], k, cmp);
    SliceOfSuffix(src, i, m - i, e - i);
    Associate(out, Merge(src[i..m], src[m..e], cmp), MergePass(src[e..], k, cmp));
  }

  lemma Associate<T>(a: seq<T>, b: seq<T>, c: seq<T>)
    ensures a + b + c == a + (b + c)
  {
  }

  lemma PassOfNothing<V>(src: seq<Handle<V>>, i: nat, k: nat, out: seq<Handle<V>>, cmp: Cmp)
    requires k > 0 && i == |src|
    ensures out + MergePass(src[i..], k, cmp) == out
  {
  }

  lemma EndPass<V>(out: seq<Handle<V>>, list: Handle?<V>, tail: Handle?<V>)
    requires Built(out, list, tail)
    ensures tail != null ==> tail in out
  {
  }

  /**
   The whole sort: passes over runs of doubling length until one merge covers the list. It ends with all
   elements linked for any comparison, and with the stable sort for an order.
   */
  method SortList<V>(head: Handle<V>, cmp: Cmp, ghost src: seq<Handle<V>>, ghost all: set<Handle<V>>)
    returns (head': Handle?<V>, tail: Handle?<V>, ghost out: seq<Handle<V>>)
    requires src != [] && head == src[0] && Distinct(src) && AppLinked(src)
    requires forall x | x in src :: x in all
    modifies all`next, all`prev
    ensures multiset(out) == multiset(src) && |out| == |src|
    ensures TotalPreorder(cmp) ==> out == SortOf(src, cmp)
    ensures Distinct(out) && AppLinked(out) && head' == First(out) && tail == Last(out)
  {
    hide AppLinked, SortOf, MergePass, BlockSort, Runs, TotalPreorder;
    var insize := 1;
    var looping := true;
    var list: Handle?<V> := head;
    head', tail, out := head, null, src;
    BlocksOfOne(src, cmp);
    while looping
      invariant insize > 0 && |out| == |src| && multiset(out) == multiset(src)
      invariant TotalPreorder(cmp) ==> out == if looping then BlockSort(src, insize, cmp) else SortOf(src, cmp)
      invariant !looping ==> head' == First(out) && tail == Last(out)
      invariant Distinct(out) && AppLinked(out) && list == First(out)
      invariant forall x | x in out :: x in all
      decreases looping, Runs(|src|, insize)
    {
      var nmerges;
      if TotalPreorder(cmp) {
        PassDoublesBlocks(src, insize, cmp);
      }
      RunsFall(|src|, insize);
      list, tail, nmerges, out := SortPass(list, insize, cmp, out, all);
      if nmerges <= 1 {
        looping := false;
        head' := list;
        OneBlock(src, insize * 2, cmp);
      }
      insize := insize * 2;
    }
  }

  lemma OneBlock<V>(s: seq<Handle<V>>, k: nat, cmp: Cmp)
    requires k > 0 && |s| <= k
    ensures BlockSort(s, k, cmp) == SortOf(s, cmp)
  {
  }
}
