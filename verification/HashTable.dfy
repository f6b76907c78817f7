/** The table itself: application list, bucket array, counters, and the operations on them. */
module HashTable {
  import opened Bits
  import opened Sequences
  import opened HashBuckets
  import opened StableSort
  import opened ListSort

  ghost predicate UniqueKeys<V>(s: seq<Handle<V>>) {
    forall i, j :: 0 <= i < j < |s| ==> s[i].key != s[j].key
  }

  lemma Pow2Of5()
    ensures Pow2(INITIAL_NUM_BUCKETS_LOG2) == INITIAL_NUM_BUCKETS
  {
    assert Pow2(2) == 4 && Pow2(3) == 8 && Pow2(4) == 16;
  }

  ghost function ContentsOf<V>(s: seq<Handle<V>>): map<Key, Handle<V>>
    requires UniqueKeys(s)
  {
    map h | h in s :: h.key := h
  }

  /** The value expand_mult holds for a chain of the given length right after an expansion. */
  function MultFor(count: nat, ideal: nat): nat
    requires ideal > 0
  {
    if count > ideal then Quotient(count, ideal) else 0
  }

  function Quotient(a: nat, b: nat): nat
    requires b > 0
  {
    a / b
  }

  lemma MultForMeans(count: nat, ideal: nat)
    requires ideal > 0
    ensures var m := MultFor(count, ideal);
            if count <= ideal then m == 0 else ideal * m <= count < ideal * (m + 1)
  {
  }

  /** Every key is filed under its hash value modulo the number of buckets. */
  ghost function Index(hash: Key -> nat, n: nat): Key -> nat
    requires n > 0
  {
    k => hash(k) % n
  }

  /** The members of the first i chains: those an expansion has refiled. */
  ghost function Moved<V>(cs: seq<seq<Handle<V>>>, members: set<Handle<V>>, bkt: Key -> nat, i: nat): set<Handle<V>>
  {
    set h | h in members && bkt(h.key) < i
  }

  lemma MovedChain<V>(cs: seq<seq<Handle<V>>>, members: set<Handle<V>>, bkt: Key -> nat, i: nat)
    requires Partition(cs, members, bkt) && i < |cs|
    ensures Moved(cs, members, bkt, i) + Elems(cs[i]) == Moved(cs, members, bkt, i + 1)
    ensures forall h | h in cs[i] :: h !in Moved(cs, members, bkt, i)
  {
  }

  lemma UniqueSnoc<V>(s: seq<Handle<V>>, h: Handle<V>)
    requires UniqueKeys(s) && forall x | x in s :: x.key != h.key
    ensures UniqueKeys(s + [h]) && h !in s && forall i, j | 0 <= i < j < |s| :: s[i] != s[j]
  {
  }

  /** What decides about expansions: counters, and the multiplier of each bucket. */
  datatype Tuning = Tuned(numBuckets: nat, log2: nat, ideal: nat, nonideal: nat, ineff: nat, noexpand: bool,
                          mults: seq<nat>)

  const NEW_TABLE: Tuning := Tuned(32, 5, 0, 0, 0, false, seq(32, _ => 0))

  /** From one expansion to the next, for a table with these chains and n items. */
  ghost predicate Expanded<V>(before: Tuning, after: Tuning, cs: seq<seq<Handle<V>>>, n: nat) {
    && after.numBuckets == 2 * before.numBuckets == |cs| == |after.mults| && after.log2 == before.log2 + 1
    && n <= after.numBuckets * after.ideal < n + after.numBuckets && after.nonideal == Excess(cs, after.ideal)
    && after.ineff == (if after.nonideal > n / 2 then before.ineff + 1 else 0)
    && after.noexpand == (before.noexpand || after.ineff > 1)
    && forall b | 0 <= b < |cs| ::
         if |cs[b]| <= after.ideal then after.mults[b] == 0
         else after.ideal * after.mults[b] <= |cs[b]| < after.ideal * (after.mults[b] + 1)
  }

  class Table<V> {
    const hash: Key -> nat
    var head: Handle?<V>
    var tail: Handle?<V>
    var buckets: array<Bucket<V>>
    var numBuckets: nat
    var log2NumBuckets: nat
    var numItems: nat
    var idealChainMaxlen: nat
    var nonidealItems: nat
    var ineffExpands: nat
    var noexpand: bool
    /** The elements in application order, and the chain of every bucket. */
    ghost var order: seq<Handle<V>>
    ghost var chains: seq<seq<Handle<V>>>

    ghost predicate BucketsOk(members: set<Handle<V>>)
      reads this`buckets, this`chains, this`numBuckets, this`log2NumBuckets
      reads buckets, members`hhNext, members`hhPrev, members`hashv
    {
      && numBuckets == |chains| == Pow2(log2NumBuckets)
      && Filed(buckets, chains, members, Index(hash, numBuckets))
      && (forall h | h in members :: h.hashv == hash(h.key))
    }

    ghost predicate ListOk()
      reads this`order, this`head, this`tail, order`next, order`prev
    {
      && UniqueKeys(order) && AppLinked(order)
      && head == First(order) && (order != [] ==> tail == Last(order))
    }

    ghost predicate Valid()
      reads this, buckets, order`next, order`prev, order`hhNext, order`hhPrev, order`hashv
    {
      && ListOk()
      && (order != [] ==> BucketsOk(Elems(order)) && numItems == |order|)
    }

    ghost predicate HasKey(key: Key)
      reads this`order
    {
      exists h :: h in order && h.key == key
    }

    /** The null head pointer of an empty table; the bucket array is made with the first element. */
    constructor (hash: Key -> nat)
      ensures Valid() && order == [] && this.hash == hash && fresh(buckets)
    {
      this.hash := hash;
      head, tail := null, null;
      buckets := new Bucket<V>[0](_ => Bucket(null, 0, 0));
      numBuckets, log2NumBuckets, numItems, idealChainMaxlen := 0, 0, 0, 0;
      nonidealItems, ineffExpands, noexpand := 0, 0, false;
      order, chains := [], [];
    }

    /** HASH_MAKE_TABLE: an empty table around its first element. */
    method MakeTable(h: Handle<V>)
      modifies this
      ensures head == old(head) && tail == h && numItems == 0 && order == old(order)
      ensures BucketsOk({}) && fresh(buckets)
      ensures Current() == NEW_TABLE && forall hashv :: !WouldExpand(hashv)
    {
      hide Filed, Excess, MultsOk, Pow2, Index, Current, WouldExpand;
      tail := h;
      numItems := 0;
      numBuckets, log2NumBuckets := INITIAL_NUM_BUCKETS, INITIAL_NUM_BUCKETS_LOG2;
      Pow2Of5();
      idealChainMaxlen, nonidealItems, ineffExpands, noexpand := 0, 0, 0, false;
      buckets, chains := EmptyBuckets(INITIAL_NUM_BUCKETS, 1, Index(hash, INITIAL_NUM_BUCKETS));
      EmptyChains();
    }

    lemma EmptyChains()
      requires |chains| == buckets.Length == numBuckets == 32 && log2NumBuckets == 5
      requires idealChainMaxlen == 0 && nonidealItems == 0 && ineffExpands == 0 && !noexpand
      requires forall b | 0 <= b < |chains| :: chains[b] == [] && buckets[b] == Bucket(null, 0, 0)
      ensures Current() == NEW_TABLE && forall hashv :: !WouldExpand(hashv)
    {
    }

    /** HASH_APPEND_LIST: link h behind the tail. */
    method AppendList(h: Handle<V>)
      requires ListOk() && order != [] && !HasKey(h.key)
      modifies this`tail, this`order, h`next, h`prev, order`next
      ensures ListOk() && order == old(order) + [h]
    {
      hide UniqueKeys;
      UniqueSnoc(order, h);
      h.next := null;
      h.prev := tail;
      tail.next := h;
      tail := h;
      order := order + [h];
    }

    ghost function Current(): Tuning
      reads this`numBuckets, this`log2NumBuckets, this`idealChainMaxlen, this`nonidealItems, this`ineffExpands
      reads this`noexpand, this`buckets, buckets
    {
      var bk := buckets;
      Tuned(numBuckets, log2NumBuckets, idealChainMaxlen, nonidealItems, ineffExpands, noexpand,
            seq(bk.Length, i reads bk requires 0 <= i < bk.Length => bk[i].expandMult))
    }

    /** The chain for this hash value has become too long for its multiplier with one element more. */
    ghost predicate WouldExpand(hashv: nat)
      reads this`numBuckets, this`chains, this`noexpand, this`buckets, buckets
    {
      && numBuckets > 0 && hashv % numBuckets < |chains| && hashv % numBuckets < buckets.Length
      && |chains[hashv % numBuckets]| + 1 >= (buckets[hashv % numBuckets].expandMult + 1) * 10 && !noexpand
    }

    /** HASH_ADD_TO_BKT, which doubles the buckets when the chain has become too long. */
    method AddToBkt(b: nat, h: Handle<V>, ghost members: set<Handle<V>>)
      requires BucketsOk(members) && h !in members && numItems > 0
      requires h.hashv == hash(h.key) && b == h.hashv % numBuckets
      modifies this`buckets, this`numBuckets, this`log2NumBuckets, this`idealChainMaxlen, this`nonidealItems,
               this`ineffExpands, this`noexpand, this`chains, buckets,
               members`hhNext, members`hhPrev, h`hhNext, h`hhPrev
      ensures BucketsOk(members + {h}) && (fresh(buckets) || buckets == old(buckets))
      ensures if |old(chains)[b]| + 1 >= (old(buckets[b].expandMult) + 1) * 10 && !old(noexpand)
              then Expanded(old(Current()), Current(), chains, numItems)
              else Current() == old(Current()) && buckets == old(buckets)
    {
      hide Partition, ChainForward, ChainBack, Expanded;
      PushFront(buckets, b, h, Index(hash, numBuckets), chains, members);
      chains := chains[b := [h] + chains[b]];
      assert BucketOk(buckets[b], chains[b]);
      assert BucketsOk(members + {h}) && Current() == old(Current());
      if buckets[b].count >= (buckets[b].expandMult + 1) * BKT_CAPACITY_THRESH && !noexpand {
        ExpandBuckets(members + {h});
      }
    }

    /** One pass over all chains, refiling every handle into twice as many buckets. */
    method ExpandBuckets(ghost members: set<Handle<V>>)
      requires BucketsOk(members) && numItems > 0
      modifies this`buckets, this`numBuckets, this`log2NumBuckets, this`idealChainMaxlen, this`nonidealItems,
               this`ineffExpands, this`noexpand, this`chains, members`hhNext, members`hhPrev
      ensures BucketsOk(members) && fresh(buckets)
      ensures numBuckets == 2 * old(numBuckets) && log2NumBuckets == old(log2NumBuckets) + 1
      ensures idealChainMaxlen == CeilDiv(numItems, numBuckets) > 0
      ensures nonidealItems == Excess(chains, idealChainMaxlen)
      ensures MultsOk(buckets, chains, idealChainMaxlen)
      ensures Expanded(old(Current()), Current(), chains, numItems)
      ensures forall b | 0 <= b < |chains| ::
                b < buckets.Length && if |chains[b]| <= idealChainMaxlen then buckets[b].expandMult == 0
                else idealChainMaxlen * buckets[b].expandMult <= |chains[b]| <
                     idealChainMaxlen * (buckets[b].expandMult + 1)
      ensures ineffExpands == if nonidealItems > numItems / 2 then old(ineffExpands) + 1 else 0
      ensures noexpand == (old(noexpand) || ineffExpands > 1)
    {
      hide Filed, MultsOk, CeilDiv;
      var ideal := IdealChainLength(numItems, numBuckets * 2, log2NumBuckets + 1);
      var newBuckets, nonideal;
      ghost var cs;
      newBuckets, nonideal, cs := Redistribute(buckets, log2NumBuckets, ideal, chains, members,
                                                    Index(hash, numBuckets), Index(hash, numBuckets * 2));
      Install(newBuckets, ideal, nonideal, cs);
      assert BucketsOk(members);
      CeilDivMeans(numItems, numBuckets);
      ghost var after := Current();
      assert 2 * old(numBuckets) == |chains| == |after.mults| by { BucketsSized(members); }
      MultsMean(buckets, after.mults, chains, idealChainMaxlen);
    }

    /** The field updates that end an expansion. */
    method Install(newBuckets: array<Bucket<V>>, ideal: nat, nonideal: nat, ghost cs: seq<seq<Handle<V>>>)
      modifies this`buckets, this`numBuckets, this`log2NumBuckets, this`idealChainMaxlen, this`nonidealItems,
               this`ineffExpands, this`noexpand, this`chains
      ensures buckets == newBuckets && chains == cs
      ensures numBuckets == 2 * old(numBuckets) && log2NumBuckets == old(log2NumBuckets) + 1
      ensures idealChainMaxlen == ideal && nonidealItems == nonideal
      ensures ineffExpands == if nonidealItems > numItems / 2 then old(ineffExpands) + 1 else 0
      ensures noexpand == (old(noexpand) || ineffExpands > 1)
    {
      ShrIsDiv(numItems, 1);
      assert Pow2(1) == 2 * Pow2(0);
      numBuckets := numBuckets * 2;
      log2NumBuckets := log2NumBuckets + 1;
      buckets, chains := newBuckets, cs;
      idealChainMaxlen, nonidealItems := ideal, nonideal;
      ineffExpands := if nonidealItems > Shr(numItems, 1) then ineffExpands + 1 else 0;
      if ineffExpands > 1 {
        noexpand := true;
      }
    }

    /** HASH_ADD_TO_TABLE: count the element and file it. */
    method AddToTable(h: Handle<V>, ghost members: set<Handle<V>>)
      requires BucketsOk(members) && h !in members && h.hashv == hash(h.key)
      modifies this`buckets, this`numBuckets, this`log2NumBuckets, this`numItems, this`idealChainMaxlen,
               this`nonidealItems, this`ineffExpands, this`noexpand, this`chains, buckets,
               members`hhNext, members`hhPrev, h`hhNext, h`hhPrev
      ensures BucketsOk(members + {h}) && (fresh(buckets) || buckets == old(buckets))
      ensures numItems == old(numItems) + 1
      ensures if old(WouldExpand(h.hashv)) then Expanded(old(Current()), Current(), chains, numItems)
              else Current() == old(Current()) && buckets == old(buckets)
    {
      hide Filed, Expanded;
      numItems := numItems + 1;
      var b := ToBkt(h.hashv, numBuckets, log2NumBuckets);
      BucketsSized(members);
      assert Current() == old(Current());
      AddToBkt(b, h, members);
    }

    lemma BucketsSized(members: set<Handle<V>>)
      requires BucketsOk(members)
      ensures numBuckets == |chains| == buckets.Length > 0
    {
    }

    /** A table around h alone, when the list was empty. */
    method StartList(h: Handle<V>)
      requires order == []
      modifies this, h`next, h`prev
      ensures ListOk() && order == [h]
      ensures BucketsOk({}) && numItems == 0 && fresh(buckets)
      ensures Current() == NEW_TABLE && forall hashv :: !WouldExpand(hashv)
    {
      hide BucketsOk;
      h.next, h.prev := null, null;
      MakeTable(h);
      head := h;
      order := [h];
    }

    /** HASH_ADD: the new element goes to the end of the application list. */
    method Add(h: Handle<V>)
      requires Valid() && h !in order && !HasKey(h.key)
      modifies this, buckets, h, order`next, order`hhNext, order`hhPrev
      ensures Valid() && order == old(order) + [h]
      ensures Contents() == old(Contents())[h.key := h]
      ensures fresh(buckets) || buckets == old(buckets)
      ensures old(order) == [] ==> Current() == NEW_TABLE
      ensures old(order) != [] ==>
                if old(WouldExpand(hash(h.key))) then Expanded(old(Current()), Current(), chains, numItems)
                else Current() == old(Current()) && buckets == old(buckets)
    {
      hide BucketsOk, ListOk, ContentsOf, UniqueKeys, Expanded;
      UniqueWhenOk();
      h.hashv := hash(h.key);
      ghost var before, members := order, Elems(order);
      PlaceLast(h);
      UniqueWhenOk();
      AddToTable(h, members);
      ElemsSnoc(before, h);
      ContentsAdded(before, order, h);
    }

    /** The new element goes to the end of the application list, which it starts if it is the first. */
    method PlaceLast(h: Handle<V>)
      requires Valid() && h !in order && !HasKey(h.key)
      modifies this, h`next, h`prev, order`next
      ensures ListOk() && order == old(order) + [h]
      ensures BucketsOk(Elems(old(order))) && numItems == |old(order)|
      ensures fresh(buckets) || buckets == old(buckets)
      ensures Started(old(order) == [], old(Current()), old(buckets))
      ensures forall hashv :: WouldExpand(hashv) <==> old(order) != [] && old(WouldExpand(hashv))
    {
      hide BucketsOk;
      if head == null {
        assert Elems(order) == {};
        StartList(h);
      } else {
        AppendList(h);
      }
    }

    /** A new table, or the one before with its buckets. */
    ghost predicate Started(first: bool, before: Tuning, was: array<Bucket<V>>)
      reads this, buckets
    {
      if first then Current() == NEW_TABLE else Current() == before && buckets == was
    }

    /** The loop of HASH_AKBI_INNER_LOOP: the first element that compares greater than h. */
    method FindPlace(h: Handle<V>, cmp: Cmp) returns (iter: Handle?<V>, ghost k: nat)
      requires ListOk() && order != []
      ensures k <= |order| && iter == At(order, k)
      ensures iter == null ==> forall x | x in order :: cmp(x.key, h.key) <= 0
      ensures iter != null ==> iter in order && cmp(iter.key, h.key) > 0
      ensures Insert(order, h, cmp) == Put(order, k, h)
    {
      iter, k := head, 0;
      while iter != null
        invariant k <= |order| && iter == At(order, k)
        invariant forall j | 0 <= j < k :: cmp(order[j].key, h.key) <= 0
        decreases |order| - k
      {
        if cmp(iter.key, h.key) > 0 {
          break;
        }
        iter := iter.next;
        k := k + 1;
      }
      InsertAt(order, h, k, cmp);
    }

    /** Link h into the application list in front of position k. */
    method InsertBefore(iter: Handle<V>, h: Handle<V>, ghost k: nat)
      requires ListOk() && k < |order| && iter == order[k] && !HasKey(h.key)
      modifies this`head, this`order, h`next, h`prev, order`next, order`prev
      ensures ListOk() && order == Put(old(order), k, h)
    {
      hide UniqueKeys, Put;
      PutUnique(order, k, h);
      LinkBefore(iter, h);
      if h.prev == null {
        head := h;
      }
      PutLinked(order, k, h);
      PutEnds(order, k, h);
      order := Put(order, k, h);
    }

    /** HASH_ADD with a comparison function: the new element goes where the order wants it. */
    method AddInOrder(h: Handle<V>, cmp: Cmp)
      requires Valid() && h !in order && !HasKey(h.key)
      modifies this, buckets, h, order`next, order`prev, order`hhNext, order`hhPrev
      ensures Valid() && order == Insert(old(order), h, cmp)
      ensures Contents() == old(Contents())[h.key := h]
      ensures fresh(buckets) || buckets == old(buckets)
      ensures old(order) == [] ==> Current() == NEW_TABLE
      ensures old(order) != [] ==>
                if old(WouldExpand(hash(h.key))) then Expanded(old(Current()), Current(), chains, numItems)
                else Current() == old(Current()) && buckets == old(buckets)
    {
      hide BucketsOk, ListOk, Insert, Put, ContentsOf, UniqueKeys, Expanded;
      UniqueWhenOk();
      h.hashv := hash(h.key);
      ghost var before, members := order, Elems(order);
      ghost var k := PlaceInOrder(h, cmp);
      UniqueWhenOk();
      AddToTable(h, members);
      ElemsPut(before, k, h);
      ContentsAdded(before, order, h);
    }

    /** The new element goes into the application list, which it starts if it is the first. */
    method PlaceInOrder(h: Handle<V>, cmp: Cmp) returns (ghost k: nat)
      requires Valid() && h !in order && !HasKey(h.key)
      modifies this, h`next, h`prev, order`next, order`prev
      ensures ListOk() && k <= |old(order)| && order == Insert(old(order), h, cmp) == Put(old(order), k, h)
      ensures BucketsOk(Elems(old(order))) && numItems == |old(order)|
      ensures fresh(buckets) || buckets == old(buckets)
      ensures Started(old(order) == [], old(Current()), old(buckets))
      ensures forall hashv :: WouldExpand(hashv) <==> old(order) != [] && old(WouldExpand(hashv))
    {
      hide BucketsOk, Insert, Put;
      k := 0;
      InsertAt([], h, 0, cmp);
      PutLast([], h);
      if head == null {
        assert Elems(order) == {};
        StartList(h);
      } else {
        k := LinkInOrder(h, cmp);
      }
    }

    method LinkInOrder(h: Handle<V>, cmp: Cmp) returns (ghost k: nat)
      requires ListOk() && order != [] && !HasKey(h.key)
      modifies this`head, this`tail, this`order, h`next, h`prev, order`next, order`prev
      ensures ListOk() && k <= |old(order)| && order == Insert(old(order), h, cmp) == Put(old(order), k, h)
    {
      hide ListOk, Insert, Put;
      var iter;
      iter, k := FindPlace(h, cmp);
      if iter != null {
        InsertBefore(iter, h, k);
      } else {
        AppendList(h);
        PutLast(old(order), h);
      }
    }

    /** The abstract table: each key with the element that carries it. */
    ghost function Contents(): map<Key, Handle<V>>
      requires UniqueKeys(order)
      reads this`order
    {
      ContentsOf(order)
    }

    /** HASH_FIND: hash, pick the bucket, walk its chain. */
    method Find(key: Key) returns (out: Handle?<V>)
      requires Valid()
      ensures out == if key in Contents() then Contents()[key] else null
      ensures out == null <==> !HasKey(key)
    {
      out := null;
      if head != null {
        var hashv := hash(key);
        var b := ToBkt(hashv, numBuckets, log2NumBuckets);
        out := FindInBkt(b, key, hashv);
        KeyChain(key, b);
      }
    }

    /** HASH_FIND_IN_BKT. */
    method FindInBkt(b: nat, key: Key, hashv: nat) returns (out: Handle?<V>)
      requires order != [] && BucketsOk(Elems(order)) && b < |chains| && hashv == hash(key)
      ensures out == null ==> forall x | x in chains[b] :: x.key != key
      ensures out != null ==> out in chains[b] && out.key == key
    {
      ghost var chain := chains[b];
      assert BucketOk(buckets[b], chain);
      out := buckets[b].head;
      ghost var j := 0;
      while out != null
        invariant j <= |chain| && out == At(chain, j)
        invariant forall k | 0 <= k < j :: chain[k].key != key
        decreases |chain| - j
      {
        if out.hashv == hashv && |out.key| == |key| {
          if out.key == key {
            break;
          }
        }
        assert out in Elems(order);
        out := out.hhNext;
        j := j + 1;
      }
    }

    /** A key can only be in its own chain. */
    lemma KeyChain(key: Key, b: nat)
      requires order != [] && BucketsOk(Elems(order)) && b == hash(key) % numBuckets
      ensures forall h | h in order && h.key == key :: h in chains[b]
      ensures forall h | h in chains[b] :: h in order
    {
    }

    /** Take h out of the application list. */
    method UnlinkFromList(h: Handle<V>, ghost k: nat)
      requires ListOk() && k < |order| && h == order[k] && |order| > 1
      modifies this`head, this`tail, this`order, order`next, order`prev
      ensures ListOk() && order == Cut(old(order), k)
    {
      hide UniqueKeys, Cut;
      CutUnique(order, k);
      if h == tail {
        tail := h.prev;
      }
      BypassInList(h);
      if h.prev == null {
        head := h.next;
      }
      AppCutLinked(order, k);
      CutEnds(order, k);
      order := Cut(order, k);
    }

    /** HASH_DELETE_HH: the last element takes the whole table with it. */
    method Delete(h: Handle<V>) returns (ghost k: nat)
      requires Valid() && h in order
      modifies this, buckets, order`next, order`prev, order`hhNext, order`hhPrev
      ensures k < |old(order)| && old(order)[k] == h
      ensures Valid() && order == Cut(old(order), k)
      ensures Contents() == old(Contents()) - {h.key}
      ensures buckets == old(buckets) && Current() == old(Current())
    {
      hide BucketsOk, ContentsOf;
      k :| 0 <= k < |order| && order[k] == h;
      assert h.prev == (if k > 0 then order[k - 1] else null) && h.next == At(order, k + 1);
      if h.prev == null && h.next == null {
        head := null;
        order := [];
        ContentsCut(old(order), k);
        assert Cut(old(order), k) == [];
      } else {
        ghost var members := Elems(order);
        UnlinkFromList(h, k);
        DelFromTable(h, members);
        ElemsCut(old(order), k);
        ContentsCut(old(order), k);
      }
    }

    method DelFromTable(h: Handle<V>, ghost members: set<Handle<V>>)
      requires BucketsOk(members) && h in members && numItems > 0
      modifies this`numItems, this`chains, buckets, members`hhNext, members`hhPrev
      ensures BucketsOk(members - {h}) && numItems == old(numItems) - 1 && Current() == old(Current())
    {
      hide Filed;
      var b := ToBkt(h.hashv, numBuckets, log2NumBuckets);
      ghost var j := DelInBucket(buckets, b, h, Index(hash, numBuckets), chains, members);
      chains := chains[b := Cut(chains[b], j)];
      numItems := numItems - 1;
    }

    /** HASH_SRT: the application list is relinked, for an order as its stable sort; buckets are not touched. */
    method Sort(cmp: Cmp)
      requires Valid()
      modifies this`head, this`tail, this`order, order`next, order`prev
      ensures Valid() && (TotalPreorder(cmp) ==> order == SortOf(old(order), cmp))
      ensures multiset(order) == multiset(old(order)) && |order| == |old(order)|
      ensures Contents() == old(Contents()) && Elems(order) == Elems(old(order))
    {
      hide BucketsOk, ListOk, SortOf, ContentsOf, UniqueKeys, TotalPreorder;
      UniqueWhenOk();
      ghost var before := order;
      if head != null {
        EmptyIffNoHead();
        SortOrder(cmp);
        UniqueWhenOk();
        ContentsSame(before, order);
      } else {
        EmptyIffNoHead();
        NothingToSort<V>(cmp);
      }
    }

    lemma UniqueWhenOk()
      requires ListOk()
      ensures UniqueKeys(order)
    {
    }

    method SortOrder(cmp: Cmp)
      requires ListOk() && order != []
      modifies this`head, this`tail, this`order, order`next, order`prev
      ensures ListOk() && (TotalPreorder(cmp) ==> order == SortOf(old(order), cmp))
      ensures multiset(order) == multiset(old(order)) && |order| == |old(order)| && Elems(order) == Elems(old(order))
    {
      hide SortOf, AppLinked, UniqueKeys, Distinct, TotalPreorder;
      ghost var out;
      UniqueIsDistinct(order);
      head, tail, out := SortList(head, cmp, order, Elems(order));
      ReorderedElements(order, out);
      order := out;
    }

    /**
     Enough for a walk to end: the forward links of the bucket chains and of the application list are what
     they seem to be. Nothing is said of back links and counts.
     */
    ghost predicate Walkable(members: set<Handle<V>>)
      reads this, buckets, order`next, members`hhNext
    {
      && head == First(order) && Unread(order, 0, |order|)
      && (head != null ==>
            && numBuckets == |chains| <= buckets.Length && ChainsIn(members)
            && forall b | 0 <= b < |chains| :: buckets[b].head == First(chains[b]) && ChainForward(chains[b]))
    }

    ghost predicate ChainsIn(members: set<Handle<V>>)
      reads this`chains
    {
      forall b, h | 0 <= b < |chains| && h in chains[b] :: h in members
    }

    /** Back links and counts agree with the forward links. */
    ghost predicate Consistent(members: set<Handle<V>>)
      requires ChainsIn(members) && |chains| <= buckets.Length
      reads this, buckets, order`prev, members`hhPrev
    {
      && (forall b | 0 <= b < |chains| :: ChainBack(chains[b]) && buckets[b].count == |chains[b]|)
      && Total(chains) == numItems && |order| == numItems
      && forall i | 0 <= i < |order| :: order[i].prev == if i > 0 then order[i - 1] else null
    }

    /** HASH_FSCK: walk every chain and the application list, checking back links and counts. */
    method Fsck(ghost members: set<Handle<V>>) returns (ok: bool)
      requires Walkable(members)
      ensures head == null ==> ok
      ensures head != null ==> (ok <==> Consistent(members))
    {
      hide ChainBack, ChainForward, Total;
      ok := true;
      if head != null {
        var good, count := CheckBuckets(members);
        if !good || count != numItems {
          return false;
        }
        good, count := CheckList();
        ok := good && count == numItems;
      }
    }

    method CheckBuckets(ghost members: set<Handle<V>>) returns (ok: bool, count: nat)
      requires Walkable(members) && head != null
      ensures ok <==> forall b | 0 <= b < |chains| :: ChainBack(chains[b]) && buckets[b].count == |chains[b]|
      ensures ok ==> count == Total(chains)
    {
      hide ChainBack, ChainForward;
      ok, count := true, 0;
      var i := 0;
      while i < numBuckets
        invariant 0 <= i <= numBuckets == |chains|
        invariant ok && count == Total(chains[..i])
        invariant forall b | 0 <= b < i :: ChainBack(chains[b]) && buckets[b].count == |chains[b]|
      {
        var good, n := CheckChain(i, members);
        if !good || buckets[i].count != n {
          return false, count;
        }
        TotalSnoc(chains[..i], chains[i]);
        assert chains[..i + 1] == chains[..i] + [chains[i]];
        count := count + n;
        i := i + 1;
      }
      assert chains[..i] == chains;
    }

    method CheckChain(b: nat, ghost members: set<Handle<V>>) returns (ok: bool, n: nat)
      requires Walkable(members) && head != null && b < |chains|
      ensures ok <==> ChainBack(chains[b])
      ensures ok ==> n == |chains[b]|
    {
      ghost var chain := chains[b];
      n := 0;
      var thh := buckets[b].head;
      var prev: Handle?<V> := null;
      while thh != null
        invariant n <= |chain| && thh == At(chain, n) && prev == if n > 0 then chain[n - 1] else null
        invariant forall i {:trigger chain[i].hhPrev} | 0 <= i < n ::
                    chain[i].hhPrev == if i > 0 then chain[i - 1] else null
        decreases |chain| - n
      {
        assert thh == chain[n];
        if prev != thh.hhPrev {
          return false, n;
        }
        n := n + 1;
        prev := thh;
        thh := thh.hhNext;
      }
      ok := true;
    }

    method CheckList() returns (ok: bool, n: nat)
      requires head == First(order) && Unread(order, 0, |order|)
      ensures ok <==> forall i | 0 <= i < |order| :: order[i].prev == if i > 0 then order[i - 1] else null
      ensures ok ==> n == |order|
    {
      n := 0;
      var thh := head;
      var prev: Handle?<V> := null;
      while thh != null
        invariant n <= |order| && thh == At(order, n) && prev == if n > 0 then order[n - 1] else null
        invariant forall i | 0 <= i < n :: order[i].prev == if i > 0 then order[i - 1] else null
        decreases |order| - n
      {
        if prev != thh.prev {
          return false, n;
        }
        n := n + 1;
        prev := thh;
        thh := thh.next;
      }
      ok := true;
    }

    /** A valid table can be walked, and passes. */
    lemma ValidPasses()
      requires Valid()
      ensures Walkable(Elems(order))
      ensures head != null ==> Consistent(Elems(order))
    {
      hide Total;
      if order != [] {
        ItemCount();
        assert forall b | 0 <= b < |chains| :: BucketOk(buckets[b], chains[b]);
      }
    }

    lemma EmptyIffNoHead()
      requires ListOk()
      ensures head == null <==> order == []
    {
    }

    lemma ItemCount()
      requires Valid() && order != []
      ensures Total(chains) == numItems
    {
      var bkt, members := Index(hash, numBuckets), Elems(order);
      ChainsCountMembers(chains, members, bkt, |chains|);
      assert chains[..|chains|] == chains;
      assert Moved(chains, members, bkt, |chains|) == members;
      CountDistinct(order);
    }
  }

  /** ideal_chain_maxlen for n items in b = 2^k buckets, by shift and mask. */
  method IdealChainLength(n: nat, b: nat, k: nat) returns (ideal: nat)
    requires n > 0 && b == Pow2(k)
    ensures ideal == CeilDiv(n, b) > 0
  {
    CeilByShiftAndMask(n, k);
    CeilFromDivMod(n, b);
    ideal := Shr(n, k) + if And(n, b - 1) != 0 then 1 else 0;
  }

  ghost predicate MultsOk<V>(bk: array<Bucket<V>>, cs: seq<seq<Handle<V>>>, ideal: nat)
    reads bk
  {
    bk.Length == |cs| && ideal > 0 &&
    forall b | 0 <= b < |cs| :: bk[b].expandMult == MultFor(|cs[b]|, ideal)
  }

  lemma MultsMean<V>(bk: array<Bucket<V>>, mults: seq<nat>, cs: seq<seq<Handle<V>>>, ideal: nat)
    requires MultsOk(bk, cs, ideal) && |mults| == bk.Length
    requires forall b | 0 <= b < bk.Length :: mults[b] == bk[b].expandMult
    ensures |mults| == |cs|
    ensures forall b | 0 <= b < |cs| ::
              if |cs[b]| <= ideal then mults[b] == 0 else ideal * mults[b] <= |cs[b]| < ideal * (mults[b] + 1)
  {
    hide MultFor;
    forall b | 0 <= b < |cs|
      ensures if |cs[b]| <= ideal then mults[b] == 0 else ideal * mults[b] <= |cs[b]| < ideal * (mults[b] + 1)
    {
      MultForMeans(|cs[b]|, ideal);
    }
  }

  /** Refile one handle; `over` tells whether it landed beyond the ideal chain length. */
  method RefileOne<V>(bk: array<Bucket<V>>, h: Handle<V>, ghost log2: nat, ideal: nat,
                      ghost cs: seq<seq<Handle<V>>>, ghost done: set<Handle<V>>, ghost bkt: Key -> nat)
    returns (over: bool, ghost cs': seq<seq<Handle<V>>>)
    requires Filed(bk, cs, done, bkt) && MultsOk(bk, cs, ideal)
    requires h !in done && |cs| == Pow2(log2) && bkt(h.key) == h.hashv % |cs|
    modifies bk, h`hhNext, h`hhPrev, done`hhPrev
    ensures |cs'| == |cs| && Filed(bk, cs', done + {h}, bkt) && MultsOk(bk, cs', ideal)
    ensures Excess(cs', ideal) == Excess(cs, ideal) + if over then 1 else 0
  {
    hide Quotient;
    var b := ToBkt(h.hashv, bk.Length, log2);
    cs' := cs[b := [h] + cs[b]];
    ExcessUpdate(cs, b, [h] + cs[b], ideal);
    PushFront(bk, b, h, bkt, cs, done);
    assert BucketOk(bk[b], cs'[b]);
    over := bk[b].count > ideal;
    if over {
      SetMult(bk, b, Quotient(bk[b].count, ideal), cs', done + {h});
    }
  }

  method SetMult<V>(bk: array<Bucket<V>>, b: nat, mult: nat, ghost cs: seq<seq<Handle<V>>>,
                    ghost members: set<Handle<V>>)
    requires forall b, j :: 0 <= b < |cs| && 0 <= j < |cs[b]| ==> cs[b][j] in members
    requires Linked(bk, cs, members) && b < bk.Length
    modifies bk
    ensures Linked(bk, cs, members)
    ensures bk[b].expandMult == mult
    ensures forall i | 0 <= i < bk.Length && i != b :: bk[i] == old(bk[i])
  {
    bk[b] := bk[b].(expandMult := mult);
    forall i | 0 <= i < |cs|
      ensures BucketOk(bk[i], cs[i])
    {
      assert old(BucketOk(bk[i], cs[i]));
    }
  }

  /** Both loops of an expansion: old buckets by index, and each old chain along its links. */
  method Redistribute<V>(bk0: array<Bucket<V>>, ghost log2: nat, ideal: nat,
                         ghost cs0: seq<seq<Handle<V>>>, ghost members: set<Handle<V>>,
                         ghost bkt0: Key -> nat, ghost bkt: Key -> nat)
    returns (bk: array<Bucket<V>>, nonideal: nat, ghost cs: seq<seq<Handle<V>>>)
    requires |cs0| == Pow2(log2) && Filed(bk0, cs0, members, bkt0) && ideal > 0
    requires forall h | h in members :: bkt(h.key) == h.hashv % (2 * |cs0|)
    modifies members`hhNext, members`hhPrev
    ensures fresh(bk) && |cs| == 2 * |cs0|
    ensures Filed(bk, cs, members, bkt) && MultsOk(bk, cs, ideal)
    ensures nonideal == Excess(cs, ideal)
  {
    hide Filed, MultsOk, Moved;
    StartMove(bk0, cs0, members, bkt0);
    bk, cs := EmptyBuckets(2 * bk0.Length, ideal, bkt);
    nonideal := 0;
    ghost var done: set<Handle<V>> := {};
    var i := 0;
    while i < bk0.Length
      invariant 0 <= i <= bk0.Length
      invariant done == Moved(cs0, members, bkt0, i) <= members
      invariant |cs| == 2 * |cs0| && Filed(bk, cs, done, bkt) && MultsOk(bk, cs, ideal)
      invariant nonideal == Excess(cs, ideal)
      invariant forall k | i <= k < |cs0| :: ChainForward(cs0[k])
    {
      MovedChain(cs0, members, bkt0, i);
      nonideal, cs, done := RefileChain(bk, bk0[i].head, log2 + 1, ideal, nonideal, cs, done, bkt, cs0[i]);
      i := i + 1;
    }
  }

  method EmptyBuckets<V>(n: nat, ghost ideal: nat, ghost bkt: Key -> nat)
    returns (bk: array<Bucket<V>>, ghost cs: seq<seq<Handle<V>>>)
    requires n > 0 && ideal > 0
    ensures fresh(bk) && bk.Length == |cs| == n
    ensures Filed(bk, cs, {}, bkt) && MultsOk(bk, cs, ideal) && Excess(cs, ideal) == 0
    ensures forall b | 0 <= b < n :: bk[b] == Bucket(null, 0, 0) && cs[b] == []
  {
    bk := new Bucket<V>[n](_ => Bucket(null, 0, 0));
    cs := seq(n, _ => []);
    ExcessOfEmpty(cs, ideal);
    assert forall b | 0 <= b < |cs| :: BucketOk(bk[b], cs[b]);
  }

  lemma StartMove<V>(bk: array<Bucket<V>>, cs: seq<seq<Handle<V>>>, members: set<Handle<V>>, bkt: Key -> nat)
    requires Filed(bk, cs, members, bkt)
    ensures bk.Length == |cs| && Partition(cs, members, bkt)
    ensures forall k | 0 <= k < |cs| :: bk[k].head == First(cs[k]) && ChainForward(cs[k])
    ensures Moved(cs, members, bkt, 0) == {} && Moved(cs, members, bkt, |cs|) == members
  {
  }

  /** Refile one old chain, reached from its head by the forward links. */
  method RefileChain<V>(bk: array<Bucket<V>>, first: Handle?<V>, ghost log2: nat, ideal: nat, nonideal0: nat,
                        ghost cs0: seq<seq<Handle<V>>>, ghost done0: set<Handle<V>>, ghost bkt: Key -> nat,
                        ghost chain: seq<Handle<V>>)
    returns (nonideal: nat, ghost cs: seq<seq<Handle<V>>>, ghost done: set<Handle<V>>)
    requires Filed(bk, cs0, done0, bkt) && MultsOk(bk, cs0, ideal) && nonideal0 == Excess(cs0, ideal)
    requires ChainForward(chain) && first == First(chain) && Distinct(chain)
    requires |cs0| == Pow2(log2)
    requires forall h | h in chain :: h !in done0 && bkt(h.key) == h.hashv % |cs0|
    modifies bk, chain`hhNext, chain`hhPrev, done0`hhPrev
    ensures |cs| == |cs0| && Filed(bk, cs, done, bkt) && MultsOk(bk, cs, ideal) && nonideal == Excess(cs, ideal)
    ensures done == done0 + Elems(chain)
  {
    hide Filed, MultsOk;
    nonideal, cs, done := nonideal0, cs0, done0;
    var thh := first;
    ghost var j := 0;
    while thh != null
      invariant j <= |chain|
      invariant ChainForward(chain[j..]) && thh == First(chain[j..])
      invariant done == done0 + Elems(chain[..j])
      invariant |cs| == |cs0| && Filed(bk, cs, done, bkt) && MultsOk(bk, cs, ideal) && nonideal == Excess(cs, ideal)
      decreases |chain| - j
    {
      var nxt := thh.hhNext;
      assert thh == chain[j];
      ForwardTail(chain[j..]);
      assert chain[j..][1..] == chain[j + 1..];
      assert thh !in chain[..j];
      var over;
      over, cs := RefileOne(bk, thh, log2, ideal, cs, done, bkt);
      if over {
        nonideal := nonideal + 1;
      }
      done := done + {thh};
      ElemsStep(chain, j);
      j := j + 1;
      thh := nxt;
    }
    assert chain[..j] == chain;
  }

  lemma ElemsSnoc<T>(s: seq<T>, x: T)
    ensures Elems(s + [x]) == Elems(s) + {x}
  {
  }

  /** s with x placed at position k. */
  ghost function Put<T>(s: seq<T>, k: nat, x: T): seq<T>
    requires k <= |s|
  {
    s[..k] + [x] + s[k..]
  }

  lemma PutLast<T>(s: seq<T>, x: T)
    ensures Put(s, |s|, x) == s + [x]
  {
  }

  lemma PutCons<T>(s: seq<T>, k: nat, x: T)
    requires 0 < k <= |s|
    ensures Put(s, k, x) == [s[0]] + Put(s[1..], k - 1, x)
  {
    assert s[..k] == [s[0]] + s[1..][..k - 1];
    assert s[1..][k - 1..] == s[k..];
  }

  lemma ElemsPut<T>(s: seq<T>, k: nat, x: T)
    requires k <= |s|
    ensures Elems(Put(s, k, x)) == Elems(s) + {x}
  {
    assert s == s[..k] + s[k..];
  }

  lemma PutUnique<V>(s: seq<Handle<V>>, k: nat, h: Handle<V>)
    requires UniqueKeys(s) && k <= |s| && forall x | x in s :: x.key != h.key
    ensures UniqueKeys(Put(s, k, h)) && h !in s
    ensures Distinct(s)
  {
    var t := Put(s, k, h);
    assert forall i | 0 <= i < |t| :: t[i] == if i < k then s[i] else if i == k then h else s[i - 1];
  }

  lemma PutEnds<V>(s: seq<Handle<V>>, k: nat, h: Handle<V>)
    requires k < |s|
    ensures First(Put(s, k, h)) == (if k == 0 then h else First(s)) && Last(Put(s, k, h)) == Last(s)
  {
  }

  /** The pointer moves of an insertion in front of iter. */
  method LinkBefore<V>(iter: Handle<V>, h: Handle<V>)
    requires h != iter && iter.prev != h && iter.prev != iter
    modifies h`next, h`prev, Just(iter.prev)`next, iter`prev
    ensures h.next == iter && h.prev == old(iter.prev) && iter.prev == h
    ensures h.prev != null ==> h.prev.next == h
  {
    h.next := iter;
    h.prev := iter.prev;
    if h.prev != null {
      h.prev.next := h;
    }
    iter.prev := h;
  }

  /** The application list is linked once its neighbours at position k point to the new element. */
  lemma PutLinked<V>(s: seq<Handle<V>>, k: nat, x: Handle<V>)
    requires k < |s| && x.next == s[k] && x.prev == if k > 0 then s[k - 1] else null
    requires forall i {:trigger s[i].next} :: 0 <= i < |s| ==> s[i].next == if i == k - 1 then x else At(s, i + 1)
    requires forall i {:trigger s[i].prev} :: 0 <= i < |s| ==>
               s[i].prev == if i == k then x else if i > 0 then s[i - 1] else null
    ensures AppLinked(Put(s, k, x))
  {
    var t := Put(s, k, x);
    forall i | 0 <= i < |t|
      ensures t[i].next == At(t, i + 1)
      ensures t[i].prev == if i > 0 then t[i - 1] else null
    {
      if i != k {
        var j := if i < k then i else i - 1;
        assert t[i] == s[j];
      }
    }
  }

  lemma {:induction false} InsertAt<V>(s: seq<Handle<V>>, x: Handle<V>, k: nat, cmp: Cmp)
    requires k <= |s|
    requires forall j | 0 <= j < k :: cmp(s[j].key, x.key) <= 0
    requires k < |s| ==> cmp(s[k].key, x.key) > 0
    ensures Insert(s, x, cmp) == Put(s, k, x)
  {
    if k > 0 {
      InsertAt(s[1..], x, k - 1, cmp);
      PutCons(s, k, x);
    } else {
      assert s[..0] + [x] + s[0..] == [x] + s;
    }
  }

  lemma ElemsCut<V>(s: seq<Handle<V>>, k: nat)
    requires k < |s| && UniqueKeys(s)
    ensures Elems(Cut(s, k)) == Elems(s) - {s[k]}
  {
    assert s == s[..k] + [s[k]] + s[k + 1..];
    forall i | 0 <= i < |s| && i != k
      ensures s[i] != s[k]
    {
      assert s[i].key != s[k].key;
    }
  }

  lemma ContentsAdded<V>(s: seq<Handle<V>>, t: seq<Handle<V>>, h: Handle<V>)
    requires UniqueKeys(s) && UniqueKeys(t) && Elems(t) == Elems(s) + {h}
    requires forall x | x in s :: x.key != h.key
    ensures ContentsOf(t) == ContentsOf(s)[h.key := h]
  {
    assert forall x :: x in t <==> x in Elems(t);
    assert forall x :: x in s <==> x in Elems(s);
    var m, m' := ContentsOf(s)[h.key := h], ContentsOf(t);
    assert m.Keys == m'.Keys by {
      forall k
        ensures k in m <==> k in m'
      {
        if k in m' {
          assert m'[k] in t;
        }
      }
    }
  }

  lemma ContentsSame<V>(s: seq<Handle<V>>, t: seq<Handle<V>>)
    requires UniqueKeys(s) && UniqueKeys(t) && Elems(t) == Elems(s)
    ensures ContentsOf(t) == ContentsOf(s)
  {
    assert forall x :: x in t <==> x in Elems(t);
    assert forall x :: x in s <==> x in Elems(s);
  }

  lemma CutUnique<V>(s: seq<Handle<V>>, k: nat)
    requires UniqueKeys(s) && k < |s|
    ensures UniqueKeys(Cut(s, k)) && Distinct(s)
  {
    UniqueKeysCut(s, k);
  }

  lemma CutEnds<V>(s: seq<Handle<V>>, k: nat)
    requires k < |s| && |s| > 1
    ensures Cut(s, k) != []
    ensures First(Cut(s, k)) == if k == 0 then At(s, 1) else First(s)
    ensures Last(Cut(s, k)) == if k == |s| - 1 then s[k - 1] else Last(s)
  {
  }

  /** The pointer moves that bypass h in both directions. */
  method BypassInList<V>(h: Handle<V>)
    requires h.prev != h && h.next != h
    modifies Just(h.prev)`next, Just(h.next)`prev
    ensures h.prev == old(h.prev) && h.next == old(h.next)
    ensures h.prev != null ==> h.prev.next == h.next
    ensures h.next != null ==> h.next.prev == h.prev
  {
    if h.prev != null {
      h.prev.next := h.next;
    }
    if h.next != null {
      h.next.prev := h.prev;
    }
  }

  lemma UniqueKeysCut<V>(s: seq<Handle<V>>, k: nat)
    requires UniqueKeys(s) && k < |s|
    ensures UniqueKeys(Cut(s, k))
  {
    var t := Cut(s, k);
    assert forall i | 0 <= i < |t| :: t[i] == if i < k then s[i] else s[i + 1];
  }

  lemma ContentsCut<V>(s: seq<Handle<V>>, k: nat)
    requires UniqueKeys(s) && k < |s|
    ensures UniqueKeys(Cut(s, k)) && ContentsOf(Cut(s, k)) == ContentsOf(s) - {s[k].key}
  {
    UniqueKeysCut(s, k);
    ElemsCut(s, k);
    ContentsWithout(s, Cut(s, k), s[k]);
  }

  lemma ContentsWithout<V>(s: seq<Handle<V>>, t: seq<Handle<V>>, h: Handle<V>)
    requires UniqueKeys(s) && UniqueKeys(t) && h in s && Elems(t) == Elems(s) - {h}
    ensures ContentsOf(t) == ContentsOf(s) - {h.key}
  {
    assert forall x :: x in t <==> x in Elems(t);
    assert forall x :: x in s <==> x in Elems(s);
  }

  /** The application list is linked once the k-th element is bypassed in both directions. */
  lemma AppCutLinked<V>(s: seq<Handle<V>>, k: nat)
    requires k < |s|
    requires forall i {:trigger s[i].next} :: 0 <= i < |s| && i != k ==>
               s[i].next == if i == k - 1 then At(s, k + 1) else At(s, i + 1)
    requires forall i {:trigger s[i].prev} :: 0 <= i < |s| && i != k ==>
               s[i].prev == if i == k + 1 then (if k > 0 then s[k - 1] else null) else if i > 0 then s[i - 1] else null
    ensures AppLinked(Cut(s, k))
  {
    var t := Cut(s, k);
    forall i | 0 <= i < |t|
      ensures t[i].next == At(t, i + 1)
      ensures t[i].prev == if i > 0 then t[i - 1] else null
    {
      var j := if i < k then i else i + 1;
      assert t[i] == s[j];
    }
  }

  lemma ReorderedElements<V>(s: seq<Handle<V>>, t: seq<Handle<V>>)
    requires multiset(t) == multiset(s) && UniqueKeys(s) && Distinct(t)
    ensures UniqueKeys(t) && Elems(t) == Elems(s)
  {
    SameElements(s, t);
    forall i, j | 0 <= i < j < |t|
      ensures t[i].key != t[j].key
    {
      assert t[i] in s && t[j] in s && t[i] != t[j];
    }
  }

  lemma UniqueIsDistinct<V>(s: seq<Handle<V>>)
    requires UniqueKeys(s)
    ensures Distinct(s)
  {
  }

  lemma NothingToSort<V>(cmp: Cmp)
    ensures SortOf<V>([], cmp) == []
  {
  }

  lemma ElemsStep<T>(s: seq<T>, j: nat)
    requires j < |s|
    ensures Elems(s[..j + 1]) == Elems(s[..j]) + {s[j]}
  {
    assert s[..j + 1] == s[..j] + [s[j]];
  }

  lemma ForwardTail<V>(s: seq<Handle<V>>)
    requires ChainForward(s) && s != []
    ensures ChainForward(s[1..]) && s[0].hhNext == First(s[1..])
  {
    forall i | 0 <= i < |s[1..]|
      ensures s[1..][i].hhNext == if i + 1 < |s[1..]| then s[1..][i + 1] else null
    {
      assert s[1..][i] == s[i + 1];
    }
  }

  lemma {:induction false} TotalSnoc<T>(cs: seq<seq<T>>, c: seq<T>)
    ensures Total(cs + [c]) == Total(cs) + |c|
  {
    if cs == [] {
      assert cs + [c] == [c];
    } else {
      assert (cs + [c])[1..] == cs[1..] + [c];
      TotalSnoc(cs[1..], c);
    }
  }

  lemma {:induction false} CountDistinct<T>(s: seq<T>)
    requires Distinct(s)
    ensures |Elems(s)| == |s|
  {
    if s != [] {
      var t, x := s[..|s| - 1], s[|s| - 1];
      CountDistinct(t);
      ElemsSnoc(t, x);
      assert s == t + [x] && x !in Elems(t);
    }
  }

  /** The chains together hold every member once: the item count of HASH_FSCK. */
  lemma {:induction false} ChainsCountMembers<V>(cs: seq<seq<Handle<V>>>, members: set<Handle<V>>, bkt: Key -> nat,
                                                 i: nat)
    requires Partition(cs, members, bkt) && i <= |cs|
    ensures Total(cs[..i]) == |Moved(cs, members, bkt, i)|
  {
    if i == 0 {
      assert Moved(cs, members, bkt, 0) == {};
    } else {
      ChainsCountMembers(cs, members, bkt, i - 1);
      TotalSnoc(cs[..i - 1], cs[i - 1]);
      assert cs[..i] == cs[..i - 1] + [cs[i - 1]];
      MovedChain(cs, members, bkt, i - 1);
      CountDistinct(cs[i - 1]);
      DisjointUnionSize(Moved(cs, members, bkt, i - 1), Elems(cs[i - 1]));
    }
  }

  lemma DisjointUnionSize<T>(a: set<T>, b: set<T>)
    requires a !! b
    ensures |a + b| == |a| + |b|
  {
  }

  /** Adding in order to a sorted list is the same as appending and then sorting. */
  lemma InOrderAddIsAppendThenSort<V>(s: seq<Handle<V>>, x: Handle<V>, cmp: Cmp)
    requires TotalPreorder(cmp) && Sorted(s, cmp)
    ensures Insert(s, x, cmp) == SortOf(s + [x], cmp) && Sorted(Insert(s, x, cmp), cmp)
  {
    SortOfSorted(s, cmp);
    SortOfSnoc(s, x, cmp);
    InsertKeepsSorted(s, x, cmp);
  }
}
