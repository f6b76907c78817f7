/** Whole runs of table operations: the table stays consistent and behaves as a map. */
module HashRuns {
  import opened Sequences
  import opened HashBuckets
  import opened StableSort
  import opened HashTable

  /** What a program does to a table: add if the key is new, delete if it is there, sort, or look up. */
  datatype Op<V> =
    | Append(h: Handle<V>)
    | InOrder(h: Handle<V>, order: Cmp)
    | Remove(key: Key)
    | SortBy(cmp: Cmp)
    | Look(key: Key)

  ghost function Apply<V>(m: map<Key, Handle<V>>, op: Op<V>): map<Key, Handle<V>> {
    match op
    case Append(h) => if h.key in m then m else m[h.key := h]
    case InOrder(h, _) => if h.key in m then m else m[h.key := h]
    case Remove(key) => m - {key}
    case _ => m
  }

  ghost function ApplyAll<V>(m: map<Key, Handle<V>>, ops: seq<Op<V>>): map<Key, Handle<V>> {
    if ops == [] then m else Apply(ApplyAll(m, ops[..|ops| - 1]), ops[|ops| - 1])
  }

  ghost predicate Within<V>(op: Op<V>, pool: set<Handle<V>>) {
    match op
    case Append(h) => h in pool
    case InOrder(h, _) => h in pool
    case _ => true
  }

  ghost predicate AllIn<V>(s: seq<Handle<V>>, pool: set<Handle<V>>) {
    forall i | 0 <= i < |s| :: s[i] in pool
  }

  method Step<V>(t: Table<V>, op: Op<V>, ghost pool: set<Handle<V>>) returns (found: Handle?<V>)
    requires t.Valid() && UniqueKeys(t.order) && AllIn(t.order, pool) && Within(op, pool)
    modifies t, t.buckets, pool
    ensures t.Valid() && UniqueKeys(t.order) && AllIn(t.order, pool)
    ensures fresh(t.buckets) || t.buckets == old(t.buckets)
    ensures t.Contents() == Apply(old(t.Contents()), op)
    ensures op.Look? ==> found == if op.key in t.Contents() then t.Contents()[op.key] else null
  {
    hide Table.BucketsOk, ContentsOf, Insert, SortOf;
    found := null;
    match op {
      case Append(h) =>
        found := t.Find(h.key);
        if found == null {
          KeyIsFree(t, h);
          t.Add(h);
        }
      case InOrder(h, order) =>
        found := t.Find(h.key);
        if found == null {
          KeyIsFree(t, h);
          ghost var before := t.order;
          t.AddInOrder(h, order);
          InsertWithin(before, h, order, pool);
        }
      case Remove(key) =>
        found := t.Find(key);
        if found != null {
          FoundIsMember(t, key, found);
          ghost var before := t.order;
          ghost var k := t.Delete(found);
          CutWithin(before, k, pool);
        }
      case SortBy(cmp) =>
        ghost var before := t.order;
        t.Sort(cmp);
        SortWithin(before, t.order, pool);
      case Look(key) =>
        found := t.Find(key);
    }
    UniqueNow(t);
  }

  lemma UniqueNow<V>(t: Table<V>)
    requires t.Valid()
    ensures UniqueKeys(t.order)
  {
  }

  lemma KeyIsFree<V>(t: Table<V>, h: Handle<V>)
    requires UniqueKeys(t.order) && !t.HasKey(h.key)
    ensures h !in t.order && h.key !in t.Contents()
  {
  }

  lemma FoundIsMember<V>(t: Table<V>, key: Key, h: Handle<V>)
    requires UniqueKeys(t.order) && key in t.Contents() && t.Contents()[key] == h
    ensures h in t.order && h.key == key
  {
  }

  lemma InsertWithin<V>(s: seq<Handle<V>>, x: Handle<V>, cmp: Cmp, pool: set<Handle<V>>)
    requires AllIn(s, pool) && x in pool
    ensures AllIn(Insert(s, x, cmp), pool)
  {
    var r := Insert(s, x, cmp);
    forall i | 0 <= i < |r|
      ensures r[i] in pool
    {
      assert r[i] in multiset(r);
      assert r[i] in multiset(s) + multiset{x};
    }
  }

  lemma CutWithin<V>(s: seq<Handle<V>>, k: nat, pool: set<Handle<V>>)
    requires AllIn(s, pool) && k < |s|
    ensures AllIn(Cut(s, k), pool)
  {
    var c := Cut(s, k);
    assert forall i | 0 <= i < |c| :: c[i] == s[if i < k then i else i + 1];
  }

  lemma SortWithin<V>(s: seq<Handle<V>>, t: seq<Handle<V>>, pool: set<Handle<V>>)
    requires AllIn(s, pool) && Elems(t) == Elems(s)
    ensures AllIn(t, pool)
  {
    forall i | 0 <= i < |t|
      ensures t[i] in pool
    {
      assert t[i] in Elems(t);
      var j :| 0 <= j < |s| && s[j] == t[i];
    }
  }

  /** Any sequence of operations leaves a table that its own check accepts and that holds what a map would. */
  method Run<V>(t: Table<V>, ops: seq<Op<V>>, ghost pool: set<Handle<V>>) returns (ok: bool)
    requires t.Valid() && UniqueKeys(t.order) && AllIn(t.order, pool) &&
             forall i | 0 <= i < |ops| :: Within(ops[i], pool)
    modifies t, t.buckets, pool
    ensures ok && t.Valid() && UniqueKeys(t.order)
    ensures t.Contents() == ApplyAll(old(t.Contents()), ops)
  {
    hide Table.Valid, Apply, ContentsOf, UniqueKeys;
    ghost var m := t.Contents();
    var i := 0;
    while i < |ops|
      invariant 0 <= i <= |ops| && t.Valid() && UniqueKeys(t.order) && AllIn(t.order, pool)
      invariant fresh(t.buckets) || t.buckets == old(t.buckets)
      invariant t.Contents() == ApplyAll(m, ops[..i])
    {
      var found := Step(t, ops[i], pool);
      assert ops[..i + 1][..i] == ops[..i];
      i := i + 1;
    }
    assert ops[..i] == ops;
    t.ValidPasses();
    ok := t.Fsck(Elems(t.order));
  }

  /** Adding elements in order one by one gives their stable sort, sorted after every step. */
  method AddAllInOrder<V>(t: Table<V>, hs: seq<Handle<V>>, cmp: Cmp)
    requires t.Valid() && t.order == [] && UniqueKeys(hs) && TotalPreorder(cmp)
    modifies t, t.buckets, hs
    ensures t.Valid() && t.order == SortOf(hs, cmp) && Sorted(t.order, cmp)
  {
    hide Table.Valid, SortOf, Insert, ContentsOf, UniqueKeys, Sorted;
    var i := 0;
    NothingToSort<V>(cmp);
    assert hs[..0] == [];
    while i < |hs|
      invariant 0 <= i <= |hs| && t.Valid() && (fresh(t.buckets) || t.buckets == old(t.buckets))
      invariant t.order == SortOf(hs[..i], cmp)
    {
      NewToSort(hs, i, cmp);
      t.AddInOrder(hs[i], cmp);
      SortOfSnoc(hs[..i], hs[i], cmp);
      assert hs[..i + 1] == hs[..i] + [hs[i]];
      i := i + 1;
      SortOfIsSorted(hs[..i], cmp);
      assert Sorted(t.order, cmp);
    }
    assert hs[..i] == hs;
    SortOfIsSorted(hs, cmp);
  }

  /** And so does appending them all and sorting once. */
  method AddAllThenSort<V>(t: Table<V>, hs: seq<Handle<V>>, cmp: Cmp)
    requires t.Valid() && t.order == [] && UniqueKeys(hs) && TotalPreorder(cmp)
    modifies t, t.buckets, hs
    ensures t.Valid() && t.order == SortOf(hs, cmp) && Sorted(t.order, cmp)
  {
    hide Table.BucketsOk, SortOf, ContentsOf;
    var i := 0;
    while i < |hs|
      invariant 0 <= i <= |hs| && t.Valid() && (fresh(t.buckets) || t.buckets == old(t.buckets))
      invariant t.order == hs[..i]
    {
      assert forall j | 0 <= j < i :: hs[j].key != hs[i].key;
      t.Add(hs[i]);
      assert hs[..i + 1] == hs[..i] + [hs[i]];
      i := i + 1;
    }
    assert hs[..i] == hs;
    t.Sort(cmp);
    SortOfIsSorted(hs, cmp);
  }

  lemma NewToSort<V>(hs: seq<Handle<V>>, i: nat, cmp: Cmp)
    requires UniqueKeys(hs) && i < |hs|
    ensures var s := SortOf(hs[..i], cmp);
            && hs[i] !in s && (forall h | h in s :: h.key != hs[i].key)
            && (forall k | 0 <= k < |s| :: s[k] in hs)
  {
    var s := SortOf(hs[..i], cmp);
    forall h | h in s
      ensures h in hs && h.key != hs[i].key
    {
      assert h in multiset(s);
      assert h in multiset(hs[..i]);
      var j :| 0 <= j < |hs[..i]| && hs[..i][j] == h;
      assert hs[j] == h;
    }
  }
}
