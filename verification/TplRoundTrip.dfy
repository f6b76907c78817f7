/** What a program gets back that packs, dumps, loads and unpacks. */
module TplRoundTrip {
  import opened TplFormat
  import opened TplCodec
  import opened TplNodes
  import opened TplPack
  import opened TplDump
  import opened TplImage
  import opened TplTree
  import opened TplMaps
  import opened TplMirror

  /**
   An image dumped from one map loads on any other map of the same format, on a machine of either byte
   order, and holds what was packed as that machine sees it.
   */
  method DumpThenLoad(w: TplMap, r: TplMap) returns (rc: int)
    requires w.Valid() && !w.rdonly && w.Dumpable()
    requires r.Valid() && r.fmt == w.fmt && r != w && r.root.repr !! w.root.repr
    modifies w.root.repr`iternum, r
    modifies r.root.repr`iternum, r.root.repr`serOsz, r.root.repr`num, r.root.repr`bb, r.root.repr`cur, r.root.repr`data
    ensures w.Valid() && r.Valid() && r.rdonly && r.Loaded() && rc == 0
    ensures DataStart(r.fmt) <= |r.img| && SlotsOk(Kids(w.fmt), old(w.Packing()))
    ensures Content(r.fmt, r.img, r.big) == Seen(Kids(w.fmt), old(w.Packing()), w.big, r.big)
    ensures r.RootHolds(Content(r.fmt, r.img, r.big))
    ensures r.big == w.big ==> forall c | 0 <= c < |r.root.kids| && r.root.kids[c].shape.Ary? ::
              |w.root.kids| == |r.root.kids| && r.Left(r.root.kids[c]) == old(w.root.kids[c].bb)
  {
    hide TplNode.Wf, ArraysOf, SlotCount, SlotsOk, DataSized, PackedArray, ReadableArray, Content, Image, Accepted,
         SmallCounts, OrderOf, UsesStrings;
    ghost var full := w.Packing();
    var addr;
    rc, addr := w.Dump();
    ImageIsSeen(w.fmt, full, w.big, r.big);
    ImageFlags(w.fmt, full, w.Own());
    ListedInTree(w.root, w.pidx);
    KidsDistinct(w.root);
    KidsDistinct(r.root);
    rc := r.Load(addr, false);
    forall c | r.big == w.big && 0 <= c < |r.root.kids| && r.root.kids[c].shape.Ary?
      ensures r.Left(r.root.kids[c]) == old(w.root.kids[c].bb)
    {
      assert full[c] == [Arr(old(w.root.kids[c].bb))];
    }
  }

  /** A program's map is loaded, and the array's variables have the right sizes. */
  ghost predicate CanUnpack(r: TplMap, i: int)
    reads r, r.root.repr, set a | a in r.pidx
  {
    r.Valid() && r.rdonly && 0 < i <= |r.pidx| && r.pidx[i - 1].Wf() && r.pidx[i - 1].shape.Ary?
  }

  /** The loop `while (tpl_unpack(tn, i) > 0)`: the elements in packed order, the returns counting down to 0. */
  method UnpackAll(r: TplMap, i: int, mem0: Slots) returns (rcs: seq<int>, ghost got: seq<Record>)
    requires CanUnpack(r, i) && MemSized(r.pidx[i - 1], mem0)
    modifies r
    modifies r.root.repr`iternum, r.root.repr`serOsz, r.root.repr`num, r.root.repr`bb, r.root.repr`cur, r.root.repr`data
    ensures r.Valid() && r.rdonly
    ensures got == old(r.Left(r.pidx[i - 1])) && r.Left(r.pidx[i - 1]) == []
    ensures |rcs| == |got| + 1 && forall k | 0 <= k < |rcs| :: rcs[k] == |got| - k
    ensures forall a | a in r.pidx && a != r.pidx[i - 1] && a !in r.pidx[i - 1].kids :: r.Left(a) == old(r.Left(a))
  {
    hide TplNode.Wf, ArraysOf, SlotCount, SlotsOk, DataSized, PackedArray, ReadableArray, Content, Accepted,
         SmallCounts, OrderOf, TplMap.Left, TplMap.Yield, TplMap.Packing, TplMap.Dumpable, PickRest,
         TplMap.Reading, TplMap.Writing;
    ghost var n := r.pidx[i - 1];
    ghost var all := r.Left(n);
    rcs, got := [], [];
    var mem := mem0;
    var rc := 1;
    while rc > 0
      invariant r.Valid() && r.rdonly && MemSized(n, mem)
      invariant got + r.Left(n) == all
      invariant forall k | 0 <= k < |rcs| :: rcs[k] == |all| - k
      invariant if rc > 0 then |rcs| == |got| else |rcs| == |got| + 1 && r.Left(n) == []
      invariant forall a | a in r.pidx && a != n && a !in n.kids :: r.Left(a) == old(r.Left(a))
      decreases |r.Left(n)|, rc
    {
      ghost var left := r.Left(n);
      rc, mem := r.Unpack(i, mem);
      rcs := rcs + [rc];
      if rc > 0 {
        OneMoreRead(got, left);
        got := got + [PickRest(n.shape.kids, 0, 0, r.Yield(n.kids, mem))];
      }
    }
  }

  // ------------------------------------------------------------------ nested loops

  /** Variables of the right sizes for the fields of a level. */
  method Variables(n: TplNode) returns (mem: Slots)
    requires n.Wf() && n.shape.Ary?
    ensures MemSized(n, mem)
  {
    hide TplNode.Wf, SlotCount;
    KidsDistinct(n);
    mem := seq(|n.kids|, c requires 0 <= c < |n.kids| => seq(SlotCount(n.shape.kids, c), _ => NO_BUFFER));
  }

  method NumberOf(pidx: seq<TplNode>, a: TplNode) returns (i: nat)
    requires a in pidx
    ensures 0 < i <= |pidx| && pidx[i - 1] == a
  {
    i := 1;
    while pidx[i - 1] != a
      invariant 0 < i <= |pidx| && a !in pidx[..i - 1]
      decreases |pidx| - i
    {
      i := i + 1;
    }
  }

  /**
   A program that unpacks an array and, inside its loop, all arrays nested in it: the elements it
   builds from what it read are those that were packed. Arrays elsewhere are not disturbed.
   */
  method Drain(r: TplMap, i: int) returns (recs: seq<Record>)
    requires CanUnpack(r, i)
    modifies r
    modifies r.root.repr`iternum, r.root.repr`serOsz, r.root.repr`num, r.root.repr`bb, r.root.repr`cur, r.root.repr`data
    ensures r.Valid() && r.rdonly && r.img == old(r.img)
    ensures recs == old(r.Left(r.pidx[i - 1])) && r.Left(r.pidx[i - 1]) == []
    ensures forall a | a in r.pidx && a !in r.pidx[i - 1].repr :: r.Left(a) == old(r.Left(a))
    decreases r.pidx[i - 1].shape, 2
  {
    hide TplNode.Wf, TplMap.Valid, SlotsOk, PickRest, TplMap.Left, TplMap.Yield, SlotCount;
    var n := r.pidx[i - 1];
    TreeFacts(r, n);
    KidsInTree(n);
    ghost var all := r.Left(n);
    recs := [];
    var mem := Variables(n);
    var rc := 1;
    assert [] + all == all;
    while rc > 0
      invariant r.Valid() && r.rdonly && r.img == old(r.img) && MemSized(n, mem)
      invariant recs + r.Left(n) == all && (rc <= 0 ==> r.Left(n) == [])
      invariant forall a | a in r.pidx && a !in n.repr :: r.Left(a) == old(r.Left(a))
      decreases |r.Left(n)|, rc
    {
      ghost var left := r.Left(n);
      LoadedIsRead(r);
      rc, mem := r.Unpack(i, mem);
      if rc > 0 {
        ghost var yielded := r.Yield(n.kids, mem);
        var full := ReadNested(r, n, mem);
        OneMoreRead(recs, left);
        recs := recs + [PickRest(n.shape.kids, 0, 0, full)];
      }
    }
    assert recs + [] == recs;
  }

  /** The arrays of a level read to their ends, one after the other. */
  method ReadNested(r: TplMap, n: TplNode, mem: Slots) returns (full: Slots)
    requires r.Valid() && r.rdonly && (n == r.root || n in r.pidx) && n.Wf() && n.shape.Ary? && MemSized(n, mem)
    modifies r
    modifies r.root.repr`iternum, r.root.repr`serOsz, r.root.repr`num, r.root.repr`bb, r.root.repr`cur, r.root.repr`data
    ensures r.Valid() && r.rdonly && r.img == old(r.img)
    ensures full == old(r.Yield(n.kids, mem))
    ensures forall a | a in r.pidx && (a == n || a !in n.repr) :: r.Left(a) == old(r.Left(a))
    decreases n.shape, 1
  {
    hide TplNode.Wf, TplMap.Valid, TplMap.Left, TplMap.SlotsLeft, TplMap.Yield, Among, SlotCount, CanUnpack;
    TreeFacts(r, n);
    ghost var yielded := r.Yield(n.kids, mem);
    YieldedIs(r, n.kids, mem);
    full := [];
    var c := 0;
    NoneYet(n.kids);
    while c < |n.kids|
      invariant 0 <= c <= |n.kids| && r.Valid() && r.rdonly && r.img == old(r.img)
      invariant |full| == c && forall d | 0 <= d < c :: full[d] == yielded[d]
      invariant forall a | a in r.pidx && !Among(n.kids, c, a) :: r.Left(a) == old(r.Left(a))
    {
      OneMoreKid(n.kids, c);
      KidIsLater(n, c);
      var slots := ReadSlots(r, n, c, mem[c]);
      full := full + [slots];
      c := c + 1;
    }
    AllKids(n);
  }

  lemma YieldedIs(r: TplMap, kids: seq<TplNode>, mem: Slots)
    requires |mem| == |kids|
    ensures forall c | 0 <= c < |kids| :: r.Yield(kids, mem)[c] == match kids[c].shape
                                                                   case Ary(_) => [Arr(r.Left(kids[c]))]
                                                                   case Pound(_, _) => []
                                                                   case _ => mem[c]
  {
    hide TplMap.Left;
  }

  /** The slots of one child: values already read, or an array to drain. */
  method ReadSlots(r: TplMap, n: TplNode, c: nat, values: seq<Cell>) returns (slots: seq<Cell>)
    requires r.Valid() && r.rdonly && n.Wf() && n.shape.Ary? && c < |n.kids| && Listed(n.kids, r.pidx)
    modifies r
    modifies r.root.repr`iternum, r.root.repr`serOsz, r.root.repr`num, r.root.repr`bb, r.root.repr`cur, r.root.repr`data
    ensures r.Valid() && r.rdonly && r.img == old(r.img)
    ensures slots == match n.kids[c].shape
                     case Ary(_) => [Arr(old(r.Left(n.kids[c])))]
                     case Pound(_, _) => []
                     case _ => values
    ensures forall a | a in r.pidx && a !in n.kids[c].repr :: r.Left(a) == old(r.Left(a))
    decreases n.shape, 0
  {
    hide TplNode.Wf, TplMap.Valid, TplMap.Left;
    var kid := n.kids[c];
    match kid.shape {
      case Ary(_) =>
        KidIsLater(n, c);
        TreeFacts(r, r.root);
        var j := NumberOf(r.pidx, kid);
        var sub := Drain(r, j);
        slots := [Arr(sub)];
      case Pound(_, _) =>
        slots := [];
      case _ =>
        slots := values;
    }
  }

  lemma TreeFacts(r: TplMap, n: TplNode)
    requires r.Valid() && (n == r.root || n in r.pidx)
    ensures n.Wf() && n.shape.Ary? && Listed(n.kids, r.pidx) && |n.kids| == |n.shape.kids|
    ensures forall a | a in r.pidx :: a.Wf() && a.shape.Ary?
    ensures forall i | 0 < i <= |r.pidx| :: CanUnpack(r, i) || !r.rdonly
  {
    hide TplNode.Wf, ArraysOf;
    ListedInTree(r.root, r.pidx);
    KidsDistinct(n);
  }

  lemma LoadedIsRead(r: TplMap)
    requires r.Valid() && r.rdonly
    ensures !r.wronly
  {
  }

  /** The node lies in the tree of one of the first c children. */
  ghost predicate Among(kids: seq<TplNode>, c: nat, a: TplNode)
    requires c <= |kids|
  {
    exists d | 0 <= d < c :: a in kids[d].repr
  }

  lemma NoneYet(kids: seq<TplNode>)
    ensures forall a :: !Among(kids, 0, a)
  {
  }

  lemma OneMoreKid(kids: seq<TplNode>, c: nat)
    requires c < |kids|
    ensures forall a :: Among(kids, c + 1, a) <==> Among(kids, c, a) || a in kids[c].repr
  {
  }

  /** The child's tree has nothing in common with those of its earlier siblings. */
  lemma KidIsLater(n: TplNode, c: nat)
    requires n.Wf() && n.shape.Ary? && c < |n.kids|
    ensures n.kids[c] in n.kids[c].repr && !Among(n.kids, c, n.kids[c])
    ensures n.kids[c].shape < n.shape || !n.kids[c].shape.Ary?
  {
    hide TplNode.Wf;
    KidsDisjoint(n);
    KidInRepr(n, c);
  }

  lemma AllKids(n: TplNode)
    requires n.Wf() && n.shape.Ary?
    ensures forall a | Among(n.kids, |n.kids|, a) :: a in n.repr && a != n
  {
    hide TplNode.Wf;
    KidsDisjoint(n);
  }

  lemma OneMoreRead<T>(read: seq<T>, left: seq<T>)
    requires left != []
    ensures read + left == (read + [left[0]]) + left[1..]
  {
  }

  /**
   The whole way: packed data is dumped, loaded on another map of the format, and read by nested loops.
   The program ends up with the values that were packed, in the form its machine gives them.
   */
  method Transfer(w: TplMap, r: TplMap) returns (full: Slots)
    requires w.Valid() && !w.rdonly && w.Dumpable()
    requires r.Valid() && r.fmt == w.fmt && r != w && r.root.repr !! w.root.repr
    modifies w.root.repr`iternum, r
    modifies r.root.repr`iternum, r.root.repr`serOsz, r.root.repr`num, r.root.repr`bb, r.root.repr`cur, r.root.repr`data
    ensures SlotsOk(Kids(w.fmt), old(w.Packing())) && full == Seen(Kids(w.fmt), old(w.Packing()), w.big, r.big)
  {
    hide TplNode.Wf, TplMap.Valid, TplMap.Dumpable, TplMap.Packing, Content, TplMap.Left;
    var rc := DumpThenLoad(w, r);
    LoadedIsRead(r);
    TreeFacts(r, r.root);
    var mem := Variables(r.root);
    rc, mem := r.Unpack(0, mem);
    full := ReadNested(r, r.root, mem);
  }
}
