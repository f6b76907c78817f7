/** Packing: the walkers that copy values in, keep the packed sizes, and write the image. */
module TplPack {
  import opened Bytes
  import opened TplWords
  import opened TplFormat
  import opened TplCodec
  import opened TplNodes

  /** The values of one level by field and slot; a nested array is one slot holding its elements. */
  type Slots = seq<seq<Cell>>

  ghost predicate SlotsOk(ns: seq<Shape>, full: Slots)
    requires WfKids(ns)
  {
    |full| == |ns| &&
    forall c | 0 <= c < |ns| ::
      |full[c]| == SlotCount(ns, c) && forall k | 0 <= k < |full[c]| :: TypedCell(ns[c], full[c][k])
  }

  ghost predicate InSlots(w: seq<(nat, nat)>, full: Slots) {
    forall i | 0 <= i < |w| :: w[i].0 < |full| && w[i].1 < |full[w[i].0]|
  }

  /** The record that holds the slots in walk order. */
  function Pick(w: seq<(nat, nat)>, full: Slots): (r: Record)
    requires InSlots(w, full)
    ensures |r| == |w|
    ensures forall i | 0 <= i < |w| :: r[i] == full[w[i].0][w[i].1]
  {
    if w == [] then [] else [full[w[0].0][w[0].1]] + Pick(w[1..], full)
  }

  lemma {:induction false} RestInSlots(ns: seq<Shape>, c: nat, it: nat, full: Slots)
    requires WfKids(ns) && InWalk(ns, c, it) && SlotsOk(ns, full)
    ensures InSlots(Rest(ns, c, it), full)
  {
    var w := Rest(ns, c, it);
    forall i | 0 <= i < |w|
      ensures w[i].0 < |full| && w[i].1 < |full[w[i].0]|
    {
      RestVisits(ns, c, it, w[i].0, w[i].1);
      assert (w[i].0, w[i].1) == w[i];
    }
  }

  lemma {:induction false} PickTyped(ns: seq<Shape>, w: seq<(nat, nat)>, full: Slots)
    requires WfKids(ns) && WalkOk(ns, w) && SlotsOk(ns, full) && InSlots(w, full)
    ensures TypedRec(ns, w, Pick(w, full))
    decreases |w|
  {
    hide TypedCell;
    if w != [] {
      PickTyped(ns, w[1..], full);
      assert Pick(w, full)[1..] == Pick(w[1..], full);
    }
  }

  /** What is left to pack or dump when a walker stands at child c in iteration `it`. */
  function PickRest(ns: seq<Shape>, c: nat, it: nat, full: Slots): Record
    requires WfKids(ns) && InWalk(ns, c, it) && SlotsOk(ns, full)
  {
    RestInSlots(ns, c, it, full);
    Pick(Rest(ns, c, it), full)
  }

  /** And its encoding. */
  ghost function EncRest(ns: seq<Shape>, c: nat, it: nat, full: Slots, o: Order): bytes
    requires WfKids(ns) && InWalk(ns, c, it) && SlotsOk(ns, full)
  {
    RestInSlots(ns, c, it, full);
    RestIsOk(ns, c, it);
    PickTyped(ns, Rest(ns, c, it), full);
    EncRec(ns, Rest(ns, c, it), Pick(Rest(ns, c, it), full), o)
  }

  lemma RestOfField(ns: seq<Shape>, c: nat, it: nat, full: Slots, o: Order)
    requires WfKids(ns) && InWalk(ns, c, it) && SlotsOk(ns, full) && c < |ns| && !ns[c].Pound?
    ensures InWalk(ns, c + 1, it) && it < |full[c]| && TypedCell(ns[c], full[c][it])
    ensures PickRest(ns, c, it, full) == [full[c][it]] + PickRest(ns, c + 1, it, full)
    ensures EncRest(ns, c, it, full, o) == EncCell(ns[c], full[c][it], o) + EncRest(ns, c + 1, it, full, o)
  {
    hide Rest, TypedCell, EncCell, SlotsOk;
    FieldAhead(ns, c, it);
    RestInSlots(ns, c, it, full);
    RestInSlots(ns, c + 1, it, full);
    RestIsOk(ns, c, it);
    RestIsOk(ns, c + 1, it);
    var w := Rest(ns, c, it);
    PickTyped(ns, w, full);
    assert w[0] == (c, it) && w[1..] == Rest(ns, c + 1, it);
    assert Pick(w, full)[1..] == Pick(w[1..], full);
  }

  lemma RestSame(ns: seq<Shape>, c: nat, it: nat, c': nat, it': nat, full: Slots, o: Order)
    requires WfKids(ns) && SlotsOk(ns, full)
    requires InWalk(ns, c, it) && InWalk(ns, c', it') && Rest(ns, c, it) == Rest(ns, c', it')
    ensures PickRest(ns, c, it, full) == PickRest(ns, c', it', full)
    ensures EncRest(ns, c, it, full, o) == EncRest(ns, c', it', full, o)
  {
  }

  lemma RestAtEnd(ns: seq<Shape>, it: nat, full: Slots, o: Order)
    requires WfKids(ns) && SlotsOk(ns, full) && InWalk(ns, |ns|, it)
    ensures PickRest(ns, |ns|, it, full) == [] && EncRest(ns, |ns|, it, full, o) == []
  {
  }

  // ------------------------------------------------------------------ sizes

  method StrsSize(ss: seq<Option<bytes>>, ghost big: bool) returns (sz: nat)
    requires forall i | 0 <= i < |ss| :: StrFits(ss[i])
    ensures sz == |EncStrs(ss, big)|
  {
    sz := 0;
    var i := 0;
    while i < |ss|
      invariant 0 <= i <= |ss|
      invariant sz + |EncStrs(ss[i..], big)| == |EncStrs(ss, big)|
    {
      sz := sz + 4;
      if ss[i].Some? {
        sz := sz + |ss[i].value|;
      }
      assert ss[i..][1..] == ss[i + 1..];
      i := i + 1;
    }
  }

  /** Bytes a field takes in the image, arrays excepted. */
  method FieldSize(s: Shape, cell: Cell, ghost o: Order) returns (sz: nat)
    requires WfShape(s) && !s.Ary? && !s.Pound? && TypedCell(s, cell)
    ensures sz == |EncCell(s, cell, o)|
  {
    match s
    case Atom(size, num) => sz := size * num;
    case Bin => sz := 4 + |cell.bs|;
    case Str(_) => sz := StrsSize(cell.ss, o.ImageBig());
  }

  // ------------------------------------------------------------------ packing

  /** An array node's packed elements are well typed, and its size field is the size of their encoding. */
  ghost predicate Packed(n: TplNode, o: Order)
    requires n.Wf() && n.shape.Ary?
    reads n`bb, n`num, n`serOsz
  {
    TypedRecs(n.shape.kids, n.bb) && n.num == |n.bb| < TWO_31 && n.serOsz == |EncRecs(n.shape.kids, n.bb, o)|
  }

  ghost function KidSet(n: TplNode): set<TplNode> {
    set k | k in n.kids
  }

  /** `full` is the level's content: the caller's values, and what the nested arrays hold now. */
  ghost predicate LevelSlots(n: TplNode, mem: Slots, full: Slots)
    requires |mem| == |n.kids|
    reads KidSet(n)`bb
  {
    |full| == |n.kids| &&
    forall c | 0 <= c < |n.kids| ::
      full[c] == match n.kids[c].shape
                 case Ary(_) => [Arr(n.kids[c].bb)]
                 case Pound(_, _) => []
                 case _ => mem[c]
  }

  ghost predicate KidsPacked(n: TplNode, from: nat, o: Order)
    requires n.Wf() && n.shape.Ary?
    reads KidSet(n)`bb, KidSet(n)`num, KidSet(n)`serOsz
  {
    forall c | from <= c < |n.kids| && n.kids[c].shape.Ary? :: Packed(n.kids[c], o)
  }

  /** A nested array's content moves up, its size with it, and it starts over empty. */
  method TakeKid(n: TplNode, kid: TplNode, ghost o: Order) returns (cell: Cell)
    requires kid.Wf() && kid.shape.Ary? && n != kid && Packed(kid, o)
    modifies n`serOsz, kid`bb, kid`num, kid`serOsz
    ensures cell == Arr(old(kid.bb)) && kid.bb == [] && Packed(kid, o)
    ensures TypedCell(kid.shape, cell) && n.serOsz == old(n.serOsz) + |EncCell(kid.shape, cell, o)|
  {
    cell := Arr(kid.bb);
    kid.bb, kid.num := [], 0;
    n.serOsz := n.serOsz + 4;
    n.serOsz := n.serOsz + kid.serOsz;
    kid.serOsz := 0;
  }

  /** One field of an array element: its value, copied or moved in, and the array's new size. */
  method PackField(n: TplNode, kid: TplNode, values: seq<Cell>, it: nat, ghost expected: Cell, ghost o: Order)
    returns (cell: Cell)
    requires kid.Wf() && n != kid && !kid.shape.Pound? && TypedCell(kid.shape, expected)
    requires if kid.shape.Ary? then Packed(kid, o) && expected == Arr(kid.bb)
             else it < |values| && expected == values[it]
    modifies n`serOsz, {kid}`bb, {kid}`num, {kid}`serOsz
    ensures cell == expected && n.serOsz == old(n.serOsz) + |EncCell(kid.shape, expected, o)|
    ensures kid.shape.Ary? ==> kid.bb == [] && Packed(kid, o)
  {
    if kid.shape.Ary? {
      cell := TakeKid(n, kid, o);
    } else {
      cell := values[it];
      var sz := FieldSize(kid.shape, cell, o);
      n.serOsz := n.serOsz + sz;
    }
  }

  /** The nested arrays from child c on still hold what the element takes; those before it were emptied. */
  ghost predicate Midway(n: TplNode, c: nat, full: Slots, o: Order)
    requires n.Wf() && n.shape.Ary? && c <= |n.kids| == |full|
    reads KidSet(n)`bb, KidSet(n)`num, KidSet(n)`serOsz
  {
    && KidsPacked(n, 0, o)
    && (forall d | c <= d < |n.kids| && n.kids[d].shape.Ary? :: full[d] == [Arr(n.kids[d].bb)])
    && (forall d | 0 <= d < c && n.kids[d].shape.Ary? :: n.kids[d].bb == [])
  }

  lemma MidwayLoop(n: TplNode, c: nat, c': nat, full: Slots, o: Order)
    requires n.Wf() && n.shape.Ary? && c < |n.kids| == |full| && Midway(n, c, full, o) && n.kids[c].shape.Pound?
    requires c' <= c + 1 && forall d | c' <= d <= c :: !n.kids[d].shape.Ary?
    ensures Midway(n, c', full, o)
  {
    hide TplNode.Wf, Packed;
  }

  method PackChild(n: TplNode, c: nat, it: nat, mem: Slots, ghost full: Slots, ghost o: Order) returns (cell: Cell)
    requires n.Wf() && n.shape.Ary? && c < |n.kids| == |full| == |mem| && Midway(n, c, full, o) &&
             ValuesTaken(n, mem, full)
    requires !n.kids[c].shape.Pound? && it < |full[c]| && TypedCell(n.kids[c].shape, full[c][it])
    modifies n`serOsz, KidSet(n)`bb, KidSet(n)`num, KidSet(n)`serOsz
    ensures Midway(n, c + 1, full, o)
    ensures cell == full[c][it] && n.serOsz == old(n.serOsz) + |EncCell(n.kids[c].shape, full[c][it], o)|
  {
    hide TplNode.Wf, EncCell, TypedCell, Packed;
    KidsDistinct(n);
    KidInRepr(n, c);
    var kid := n.kids[c];
    cell := PackField(n, kid, if kid.shape.Ary? then [] else mem[c], it, full[c][it], o);
  }

  /** The slots that are not nested arrays are the caller's values. */
  ghost predicate ValuesTaken(n: TplNode, mem: Slots, full: Slots) {
    |full| == |n.kids| == |mem| &&
    forall c | 0 <= c < |n.kids| && !n.kids[c].shape.Ary? && !n.kids[c].shape.Pound? :: full[c] == mem[c]
  }

  /** tpl_pack on an array: one more element, into which the nested arrays' contents move. */
  method PackAry(n: TplNode, mem: Slots, ghost full: Slots, ghost o: Order)
    requires n.Wf() && n.shape.Ary? && ItersZero(n.repr) && |mem| == |n.kids|
    requires Packed(n, o) && |n.bb| + 1 < TWO_31 && KidsPacked(n, 0, o)
    requires LevelSlots(n, mem, full) && SlotsOk(n.shape.kids, full)
    modifies n`bb, n`num, n`serOsz, n.repr`iternum, KidSet(n)`bb, KidSet(n)`num, KidSet(n)`serOsz
    ensures ItersZero(n.repr) && Packed(n, o) && KidsPacked(n, 0, o)
    ensures n.bb == old(n.bb) + [PickRest(n.shape.kids, 0, 0, full)]
    ensures forall c | 0 <= c < |n.kids| && n.kids[c].shape.Ary? :: n.kids[c].bb == []
  {
    hide ItersAt, PickRest, EncRest, Rest, Steps, InWalk, TplNode.Wf, SlotsOk, EncCell, TypedCell, Packed, Midway,
         ValuesTaken;
    ghost var ns := n.shape.kids;
    ghost var oldBb, oldSize := n.bb, n.serOsz;
    PackedMeans(n, o);
    WalkStart(n);
    StartElement(n, mem, full, o);
    n.num := n.num + 1;
    var datum: Record := [];
    var c: nat := 0;
    var it: nat := 0;
    while c < |n.kids|
      invariant c <= |n.kids| == |ns| && InWalk(ns, c, it) && ItersAt(n, c, it)
      invariant datum + PickRest(ns, c, it, full) == PickRest(ns, 0, 0, full)
      invariant n.serOsz + |EncRest(ns, c, it, full, o)| == oldSize + |EncRest(ns, 0, 0, full, o)|
      invariant Midway(n, c, full, o) && n.bb == oldBb && n.num == |oldBb| + 1
      decreases Steps(ns, c, it)
    {
      KidInRepr(n, c);
      var kid := n.kids[c];
      if kid.shape.Pound? {
        ghost var c0, it0 := c, it;
        c, it := PoundStep(n, c, it);
        MidwayLoop(n, c0, c, full, o);
        RestSame(ns, c0, it0, c, it, full, o);
      } else {
        FieldAhead(ns, c, it);
        RestOfField(ns, c, it, full, o);
        ItersField(n, c, it);
        var cell := PackChild(n, c, it, mem, full, o);
        datum := datum + [cell];
        c := c + 1;
      }
    }
    ItersAtEnd(n, it);
    RestAtEnd(ns, it, full, o);
    RecsSnoc(ns, oldBb, full, o);
    assert datum == PickRest(ns, 0, 0, full);
    n.bb := n.bb + [datum];
    PackedMeans(n, o);
    EndElement(n, full, o);
  }

  lemma StartElement(n: TplNode, mem: Slots, full: Slots, o: Order)
    requires n.Wf() && n.shape.Ary? && |mem| == |n.kids| && KidsPacked(n, 0, o) && LevelSlots(n, mem, full)
    ensures Midway(n, 0, full, o) && ValuesTaken(n, mem, full)
    ensures n !in KidSet(n)
  {
    hide Packed, TplNode.Wf;
    KidsDistinct(n);
  }

  lemma EndElement(n: TplNode, full: Slots, o: Order)
    requires n.Wf() && n.shape.Ary? && |full| == |n.kids| && Midway(n, |n.kids|, full, o)
    ensures KidsPacked(n, 0, o) && forall c | 0 <= c < |n.kids| && n.kids[c].shape.Ary? :: n.kids[c].bb == []
  {
    hide Packed, TplNode.Wf;
  }

  lemma PackedMeans(n: TplNode, o: Order)
    requires n.Wf() && n.shape.Ary?
    ensures WfKids(n.shape.kids)
    ensures Packed(n, o) <==>
            (TypedRecs(n.shape.kids, n.bb) && n.num == |n.bb| < TWO_31 &&
             n.serOsz == |EncRecs(n.shape.kids, n.bb, o)|)
  {
  }

  /** The encoding of an array grows by the encoding of its new element. */
  lemma RecsSnoc(ns: seq<Shape>, recs: seq<Record>, full: Slots, o: Order)
    requires WfKids(ns) && TypedRecs(ns, recs) && SlotsOk(ns, full) && InWalk(ns, 0, 0)
    ensures var rec := PickRest(ns, 0, 0, full);
            && TypedRecs(ns, recs + [rec])
            && EncRecs(ns, recs + [rec], o) == EncRecs(ns, recs, o) + EncRest(ns, 0, 0, full, o)
  {
    hide TypedRec, EncRec, SlotsOk;
    RestInSlots(ns, 0, 0, full);
    WalkIsOk(ns);
    var rec := PickRest(ns, 0, 0, full);
    PickTyped(ns, Walk(ns), full);
    EncRecsSnoc(ns, recs, rec, o);
  }

  lemma {:induction false} EncRecsSnoc(ns: seq<Shape>, recs: seq<Record>, rec: Record, o: Order)
    requires WfKids(ns) && TypedRecs(ns, recs) && WalkOk(ns, Walk(ns)) && TypedRec(ns, Walk(ns), rec)
    ensures TypedRecs(ns, recs + [rec])
    ensures EncRecs(ns, recs + [rec], o) == EncRecs(ns, recs, o) + EncRec(ns, Walk(ns), rec, o)
    decreases |recs|
  {
    hide TypedRec, EncRec, Walk, WalkOk;
    if recs == [] {
      assert recs + [rec] == [rec];
      assert TypedRecs(ns, []) && EncRecs(ns, [], o) == [];
      assert [rec][1..] == [];
    } else {
      EncRecsSnoc(ns, recs[1..], rec, o);
      assert (recs + [rec])[1..] == recs[1..] + [rec];
    }
  }
}
