/**
 Elements, bucket chains and the chain operations of uthash.h. One set of handles is threaded twice: by
 `next`/`prev` in application order and by `hhNext`/`hhPrev` inside the bucket chains.
 */
module HashBuckets {
  import opened Sequences
  import opened Bits
  import opened Bytes

  type Key = bytes

  const INITIAL_NUM_BUCKETS: nat := 32
  const INITIAL_NUM_BUCKETS_LOG2: nat := 5
  const BKT_CAPACITY_THRESH: nat := 10

  /** An element with its embedded hash handle. */
  class Handle<V> {
    const key: Key
    const value: V
    var hashv: nat
    var prev: Handle?<V>
    var next: Handle?<V>
    var hhPrev: Handle?<V>
    var hhNext: Handle?<V>

    constructor (key: Key, value: V)
      ensures this.key == key && this.value == value
    {
      this.key, this.value := key, value;
      hashv := 0;
      prev, next, hhPrev, hhNext := null, null, null, null;
    }
  }

  datatype Bucket<V> = Bucket(head: Handle?<V>, count: nat, expandMult: nat)

  ghost function First<V>(s: seq<Handle<V>>): Handle?<V> {
    if s == [] then null else s[0]
  }

  ghost function Just<V>(h: Handle?<V>): set<Handle<V>> {
    if h == null then {} else {h}
  }

  ghost predicate ChainForward<V>(s: seq<Handle<V>>)
    reads s`hhNext
  {
    forall i {:trigger s[i].hhNext} :: 0 <= i < |s| ==> s[i].hhNext == if i + 1 < |s| then s[i + 1] else null
  }

  ghost predicate ChainBack<V>(s: seq<Handle<V>>)
    reads s`hhPrev
  {
    forall i {:trigger s[i].hhPrev} :: 0 <= i < |s| ==> s[i].hhPrev == if i > 0 then s[i - 1] else null
  }

  /** The bucket index is computed with a mask, which is why the number of buckets is a power of two. */
  method ToBkt(hashv: nat, n: nat, ghost k: nat) returns (b: nat)
    requires n == Pow2(k)
    ensures b == hashv % n
  {
    AndMask(hashv, k);
    b := And(hashv, n - 1);
  }

  /** Every handle of `members`, and nothing else, sits in the chain of its bucket. */
  ghost predicate Partition<V>(cs: seq<seq<Handle<V>>>, members: set<Handle<V>>, bkt: Key -> nat) {
    && |cs| > 0
    && (forall b, j :: 0 <= b < |cs| && 0 <= j < |cs[b]| ==> cs[b][j] in members && bkt(cs[b][j].key) == b)
    && (forall h | h in members :: bkt(h.key) < |cs| && h in cs[bkt(h.key)])
    && (forall b | 0 <= b < |cs| :: Distinct(cs[b]))
  }

  ghost predicate BucketOk<V>(bucket: Bucket<V>, c: seq<Handle<V>>)
    reads c`hhNext, c`hhPrev
  {
    bucket.head == First(c) && bucket.count == |c| && ChainForward(c) && ChainBack(c)
  }

  /** The bucket array stores the chains `cs`: heads, counts and both directions of every link. */
  ghost predicate Linked<V>(bk: array<Bucket<V>>, cs: seq<seq<Handle<V>>>, members: set<Handle<V>>)
    requires forall b, j :: 0 <= b < |cs| && 0 <= j < |cs[b]| ==> cs[b][j] in members
    reads bk, members`hhNext, members`hhPrev
  {
    && bk.Length == |cs|
    && forall b | 0 <= b < |cs| :: BucketOk(bk[b], cs[b])
  }

  ghost predicate Filed<V>(bk: array<Bucket<V>>, cs: seq<seq<Handle<V>>>, members: set<Handle<V>>, bkt: Key -> nat)
    reads bk, members`hhNext, members`hhPrev
  {
    Partition(cs, members, bkt) && Linked(bk, cs, members)
  }

  lemma ChainsDisjoint<V>(cs: seq<seq<Handle<V>>>, members: set<Handle<V>>, bkt: Key -> nat, b: nat)
    requires Partition(cs, members, bkt) && b < |cs|
    ensures forall i, x | 0 <= i < |cs| && i != b && x in cs[i] :: x !in cs[b]
  {
  }

  lemma PartitionPush<V>(cs: seq<seq<Handle<V>>>, members: set<Handle<V>>, bkt: Key -> nat, h: Handle<V>)
    requires Partition(cs, members, bkt) && h !in members && bkt(h.key) < |cs|
    ensures var b := bkt(h.key);
            Partition(cs[b := [h] + cs[b]], members + {h}, bkt)
  {
    var b := bkt(h.key);
    var c' := [h] + cs[b];
    var cs' := cs[b := c'];
    assert forall j | 0 < j < |c'| :: c'[j] == cs[b][j - 1];
    forall x | x in members + {h}
      ensures x in cs'[bkt(x.key)]
    {
      if x == h {
        assert c'[0] == h;
      } else {
        var k := bkt(x.key);
        assert x in cs[k];
      }
    }
  }

  /** The pointer moves of a push to the front of bucket b. */
  method LinkInFront<V>(bk: array<Bucket<V>>, b: nat, h: Handle<V>)
    requires b < bk.Length && bk[b].head != h
    modifies bk, h`hhNext, h`hhPrev, Just(bk[b].head)`hhPrev
    ensures bk[b] == Bucket(h, old(bk[b].count) + 1, old(bk[b].expandMult))
    ensures forall i | 0 <= i < bk.Length && i != b :: bk[i] == old(bk[i])
    ensures h.hhPrev == null && h.hhNext == old(bk[b].head)
    ensures h.hhNext != null ==> h.hhNext.hhPrev == h
  {
    bk[b] := bk[b].(count := bk[b].count + 1);
    h.hhPrev := null;
    h.hhNext := bk[b].head;
    if bk[b].head != null {
      bk[b].head.hhPrev := h;
    }
    bk[b] := bk[b].(head := h);
  }

  method PushFront<V>(bk: array<Bucket<V>>, b: nat, h: Handle<V>, ghost bkt: Key -> nat,
                      ghost cs: seq<seq<Handle<V>>>, ghost members: set<Handle<V>>)
    requires Filed(bk, cs, members, bkt)
    requires h !in members && b == bkt(h.key) < |cs|
    modifies bk, h`hhNext, h`hhPrev, members`hhPrev
    ensures Filed(bk, cs[b := [h] + cs[b]], members + {h}, bkt)
    ensures bk[b].expandMult == old(bk[b].expandMult)
    ensures forall i | 0 <= i < bk.Length && i != b :: bk[i] == old(bk[i])
  {
    ghost var c := cs[b];
    ghost var c' := [h] + c;
    ChainsDisjoint(cs, members, bkt, b);
    LinkInFront(bk, b, h);
    forall i | 0 <= i < |cs|
      ensures BucketOk(bk[i], cs[b := c'][i])
    {
      if i == b {
        assert forall j | 0 < j < |c'| :: c'[j] == c[j - 1];
        assert ChainForward(c');
        assert forall j | 0 < j < |c| :: c[j] != c[0];
        assert ChainBack(c');
      } else {
        assert forall x | x in cs[i] :: x !in c;
      }
    }
    PartitionPush(cs, members, bkt, h);
  }

  lemma PartitionCut<V>(cs: seq<seq<Handle<V>>>, members: set<Handle<V>>, bkt: Key -> nat, h: Handle<V>, k: nat)
    requires Partition(cs, members, bkt) && h in members
    requires var b := bkt(h.key);
             k < |cs[b]| && cs[b][k] == h
    ensures var b := bkt(h.key);
            Partition(cs[b := Cut(cs[b], k)], members - {h}, bkt)
  {
    var b := bkt(h.key);
    var c, c' := cs[b], Cut(cs[b], k);
    var cs' := cs[b := c'];
    assert forall j | 0 <= j < |c'| :: c'[j] == if j < k then c[j] else c[j + 1];
    forall x | x in members - {h}
      ensures x in cs'[bkt(x.key)]
    {
      var a := bkt(x.key);
      if a == b {
        var j :| 0 <= j < |c| && c[j] == x;
        assert x == c'[if j < k then j else j - 1];
      }
    }
  }

  /** The pointer moves that take h out of the chain of bucket b. */
  method UnlinkInBucket<V>(bk: array<Bucket<V>>, b: nat, h: Handle<V>)
    requires b < bk.Length && bk[b].count > 0
    requires h.hhPrev != h && h.hhNext != h
    modifies bk, Just(h.hhPrev)`hhNext, Just(h.hhNext)`hhPrev
    ensures bk[b] == Bucket(if old(bk[b].head) == h then h.hhNext else old(bk[b].head),
                            old(bk[b].count) - 1, old(bk[b].expandMult))
    ensures forall i | 0 <= i < bk.Length && i != b :: bk[i] == old(bk[i])
    ensures h.hhPrev != null ==> h.hhPrev.hhNext == h.hhNext
    ensures h.hhNext != null ==> h.hhNext.hhPrev == h.hhPrev
  {
    bk[b] := bk[b].(count := bk[b].count - 1);
    if bk[b].head == h {
      bk[b] := bk[b].(head := h.hhNext);
    }
    if h.hhPrev != null {
      h.hhPrev.hhNext := h.hhNext;
    }
    if h.hhNext != null {
      h.hhNext.hhPrev := h.hhPrev;
    }
  }

  /** A chain whose k-th handle is bypassed in both directions is linked once it is cut. */
  lemma CutLinked<V>(c: seq<Handle<V>>, k: nat)
    requires k < |c|
    requires forall i {:trigger c[i].hhNext} :: 0 <= i < |c| && i != k - 1 ==>
               c[i].hhNext == if i + 1 < |c| then c[i + 1] else null
    requires forall i {:trigger c[i].hhPrev} :: 0 <= i < |c| && i != k + 1 ==>
               c[i].hhPrev == if i > 0 then c[i - 1] else null
    requires k > 0 ==> c[k - 1].hhNext == if k + 1 < |c| then c[k + 1] else null
    requires k + 1 < |c| ==> c[k + 1].hhPrev == if k > 0 then c[k - 1] else null
    ensures ChainForward(Cut(c, k)) && ChainBack(Cut(c, k))
  {
    var c' := Cut(c, k);
    forall i | 0 <= i < |c'|
      ensures c'[i].hhNext == if i + 1 < |c'| then c'[i + 1] else null
      ensures c'[i].hhPrev == if i > 0 then c'[i - 1] else null
    {
      var j := if i < k then i else i + 1;
      assert c'[i] == c[j];
    }
  }

  method DelInBucket<V>(bk: array<Bucket<V>>, b: nat, h: Handle<V>, ghost bkt: Key -> nat,
                        ghost cs: seq<seq<Handle<V>>>, ghost members: set<Handle<V>>) returns (ghost k: nat)
    requires Filed(bk, cs, members, bkt)
    requires h in members && b == bkt(h.key)
    modifies bk, members`hhNext, members`hhPrev
    ensures k < |cs[b]| && cs[b][k] == h
    ensures Filed(bk, cs[b := Cut(cs[b], k)], members - {h}, bkt)
    ensures forall i | 0 <= i < bk.Length :: bk[i].expandMult == old(bk[i].expandMult)
  {
    ghost var c := cs[b];
    k :| 0 <= k < |c| && c[k] == h;
    assert h.hhPrev == if k > 0 then c[k - 1] else null;
    assert h.hhNext == if k + 1 < |c| then c[k + 1] else null;
    ChainsDisjoint(cs, members, bkt, b);
    UnlinkInBucket(bk, b, h);
    forall i | 0 <= i < |cs|
      ensures BucketOk(bk[i], cs[b := Cut(c, k)][i])
    {
      if i == b {
        CutLinked(c, k);
      } else {
        assert forall x | x in cs[i] :: x !in c;
      }
    }
    PartitionCut(cs, members, bkt, h, k);
  }

  /** The number of handles in all chains together. */
  ghost function Total<T>(cs: seq<seq<T>>): nat {
    if cs == [] then 0 else |cs[0]| + Total(cs[1..])
  }

  function Over(count: nat, ideal: nat): (r: nat)
    ensures if count > ideal then r + ideal == count else r == 0
  {
    if count > ideal then count - ideal else 0
  }

  /** How many handles sit beyond position `ideal` of their chain. */
  ghost function Excess<T>(cs: seq<seq<T>>, ideal: nat): nat {
    if cs == [] then 0 else Over(|cs[0]|, ideal) + Excess(cs[1..], ideal)
  }

  lemma {:induction false} ExcessUpdate<T>(cs: seq<seq<T>>, b: nat, c: seq<T>, ideal: nat)
    requires b < |cs|
    ensures Excess(cs[b := c], ideal) + Over(|cs[b]|, ideal) == Excess(cs, ideal) + Over(|c|, ideal)
  {
    if b == 0 {
      assert cs[b := c][1..] == cs[1..];
    } else {
      assert cs[b := c][1..] == cs[1..][b - 1 := c];
      ExcessUpdate(cs[1..], b - 1, c, ideal);
    }
  }

  lemma {:induction false} ExcessOfEmpty<T>(cs: seq<seq<T>>, ideal: nat)
    requires forall b | 0 <= b < |cs| :: cs[b] == []
    ensures Excess(cs, ideal) == 0
  {
    if cs != [] {
      ExcessOfEmpty(cs[1..], ideal);
    }
  }

  /** The excess is the number of places in chains from `ideal` on. */
  lemma {:induction false} ExcessMeans<T>(cs: seq<seq<T>>, ideal: nat)
    ensures Excess(cs, ideal) == |set b, j | 0 <= b < |cs| && ideal <= j < |cs[b]| :: (b, j)|
  {
    if cs != [] {
      var n := |cs| - 1;
      var init, c := cs[..n], cs[n];
      ExcessMeans(init, ideal);
      ExcessSnoc(init, c, ideal);
      assert cs == init + [c];
      var places := set b, j | 0 <= b < |init| && ideal <= j < |init[b]| :: (b, j);
      var last := set j | ideal <= j < |c| :: (n, j);
      PlacesFrom(n, ideal, |c|);
      assert (set b, j | 0 <= b < |cs| && ideal <= j < |cs[b]| :: (b, j)) == places + last;
      assert places !! last;
    }
  }

  lemma {:induction false} ExcessSnoc<T>(cs: seq<seq<T>>, c: seq<T>, ideal: nat)
    ensures Excess(cs + [c], ideal) == Excess(cs, ideal) + Over(|c|, ideal)
  {
    if cs == [] {
      assert cs + [c] == [c] && [c][1..] == [];
    } else {
      assert (cs + [c])[1..] == cs[1..] + [c];
      ExcessSnoc(cs[1..], c, ideal);
    }
  }

  lemma {:induction false} PlacesFrom(b: int, lo: nat, hi: nat)
    ensures |set j | lo <= j < hi :: (b, j)| == Over(hi, lo)
    decreases hi
  {
    if lo < hi {
      PlacesFrom(b, lo, hi - 1);
      assert (set j | lo <= j < hi :: (b, j)) == (set j | lo <= j < hi - 1 :: (b, j)) + {(b, hi - 1)};
    } else {
      assert (set j | lo <= j < hi :: (b, j)) == {};
    }
  }
}
