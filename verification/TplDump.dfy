/** Packing the root, computing the output size, and writing the image into a buffer of that size. */
module TplDump {
  import opened Bytes
  import opened TplWords
  import opened TplFormat
  import opened TplCodec
  import opened TplNodes
  import opened TplPack

  /** The root's content: the slots of its fields, and its arrays. */
  ghost predicate RootSlots(n: TplNode, full: Slots)
    reads KidSet(n)`bb, KidSet(n)`data
  {
    |full| == |n.kids| &&
    forall c | 0 <= c < |n.kids| ::
      full[c] == match n.kids[c].shape
                 case Ary(_) => [Arr(n.kids[c].bb)]
                 case Pound(_, _) => []
                 case _ => n.kids[c].data
  }

  /** Every field of the root has room for its slots. */
  ghost predicate DataSized(n: TplNode)
    requires n.Wf() && n.shape.Ary?
    reads KidSet(n)`data
  {
    forall c | 0 <= c < |n.kids| && !n.kids[c].shape.Ary? :: |n.kids[c].data| == SlotCount(n.shape.kids, c)
  }

  ghost predicate MemSized(n: TplNode, mem: Slots)
    requires n.Wf() && n.shape.Ary?
  {
    |mem| == |n.kids| &&
    forall c | 0 <= c < |n.kids| && !n.kids[c].shape.Ary? :: |mem[c]| == SlotCount(n.shape.kids, c)
  }

  /** tpl_pack on the root: the walk copies every slot of every field. */
  method PackRoot(n: TplNode, mem: Slots)
    requires n.Wf() && n.shape.Ary? && ItersZero(n.repr) && DataSized(n) && MemSized(n, mem)
    modifies n.repr`iternum, KidSet(n)`data
    ensures ItersZero(n.repr) && DataSized(n)
    ensures forall c | 0 <= c < |n.kids| && !n.kids[c].shape.Ary? :: n.kids[c].data == mem[c]
  {
    hide ItersAt, Rest, Steps, InWalk, TplNode.Wf, SlotCount;
    ghost var ns := n.shape.kids;
    WalkStart(n);
    KidsDistinct(n);
    var c: nat := 0;
    var it: nat := 0;
    AllAhead(ns);
    while c < |n.kids|
      invariant c <= |n.kids| == |ns| && InWalk(ns, c, it) && ItersAt(n, c, it) && DataSized(n)
      invariant forall a: nat, k: nat | a < |ns| && !ns[a].Ary? && k < SlotCount(ns, a) && (a, k) !in Rest(ns, c, it) ::
                  n.kids[a].data[k] == mem[a][k]
      decreases Steps(ns, c, it)
    {
      KidInRepr(n, c);
      var kid := n.kids[c];
      if kid.shape.Pound? {
        c, it := PoundStep(n, c, it);
      } else {
        FieldAhead(ns, c, it);
        SlotAhead(ns, c, it);
        ItersField(n, c, it);
        if !kid.shape.Ary? {
          kid.data := kid.data[it := mem[c][it]];
        }
        c := c + 1;
      }
    }
    ItersAtEnd(n, it);
    NothingAhead(ns, it);
  }

  lemma AllAhead(ns: seq<Shape>)
    requires WfLevel(ns)
    ensures InWalk(ns, 0, 0)
    ensures forall a: nat, k: nat | a < |ns| && k < SlotCount(ns, a) :: (a, k) in Rest(ns, 0, 0)
  {
    WalkVisitsEachSlotOnce(ns);
  }

  lemma SlotAhead(ns: seq<Shape>, c: nat, it: nat)
    requires WfLevel(ns) && InWalk(ns, c, it) && c < |ns| && !ns[c].Pound?
    ensures it < SlotCount(ns, c)
  {
  }

  lemma NothingAhead(ns: seq<Shape>, it: nat)
    requires WfLevel(ns) && InWalk(ns, |ns|, it)
    ensures Rest(ns, |ns|, it) == []
  {
  }

  /** tpl_ser_osz: the preamble, the root's fields, and the sizes the arrays already carry. */
  method SerOsz(n: TplNode, preamble: nat, ghost full: Slots, ghost o: Order) returns (sz: nat)
    requires n.Wf() && n.shape.Ary? && ItersZero(n.repr) && DataSized(n)
    requires RootSlots(n, full) && SlotsOk(n.shape.kids, full) && KidsPacked(n, 0, o)
    modifies n.repr`iternum
    ensures ItersZero(n.repr)
    ensures InWalk(n.shape.kids, 0, 0) && sz == preamble + |EncRest(n.shape.kids, 0, 0, full, o)|
  {
    hide ItersAt, EncRest, Rest, Steps, InWalk, TplNode.Wf, SlotsOk, EncCell, TypedCell, EncRecs, TypedRecs, SlotCount;
    ghost var ns := n.shape.kids;
    WalkStart(n);
    sz := preamble;
    var c: nat := 0;
    var it: nat := 0;
    while c < |n.kids|
      invariant c <= |n.kids| == |ns| && InWalk(ns, c, it) && ItersAt(n, c, it)
      invariant sz + |EncRest(ns, c, it, full, o)| == preamble + |EncRest(ns, 0, 0, full, o)|
      decreases Steps(ns, c, it)
    {
      KidInRepr(n, c);
      var kid := n.kids[c];
      if kid.shape.Pound? {
        ghost var c0, it0 := c, it;
        c, it := PoundStep(n, c, it);
        RestSame(ns, c0, it0, c, it, full, o);
      } else {
        FieldAhead(ns, c, it);
        RestOfField(ns, c, it, full, o);
        ItersField(n, c, it);
        if kid.shape.Ary? {
          sz := sz + 4;
          sz := sz + kid.serOsz;
          ArySize(kid, o);
        } else {
          var fieldSize := FieldSize(kid.shape, kid.data[it], o);
          sz := sz + fieldSize;
        }
        c := c + 1;
      }
    }
    ItersAtEnd(n, it);
    RestAtEnd(ns, it, full, o);
  }

  lemma ArySize(kid: TplNode, o: Order)
    requires kid.Wf() && kid.shape.Ary? && Packed(kid, o)
    ensures TypedCell(kid.shape, Arr(kid.bb)) && |EncCell(kid.shape, Arr(kid.bb), o)| == 4 + kid.serOsz
  {
  }

  // ------------------------------------------------------------------ writing

  /** tpl_cpv: copy bytes to the write position and move it on. */
  method Cpv(buf: array<byte>, dv: nat, s: bytes) returns (dv': nat)
    requires dv + |s| <= buf.Length
    modifies buf
    ensures dv' == dv + |s| && buf[..dv'] == old(buf[..dv]) + s
  {
    var i := 0;
    while i < |s|
      invariant 0 <= i <= |s|
      invariant buf[..dv] == old(buf[..dv]) && buf[dv..dv + i] == s[..i]
    {
      buf[dv + i] := s[i];
      assert buf[dv..dv + i + 1] == buf[dv..dv + i] + [s[i]];
      i := i + 1;
    }
    dv' := dv + |s|;
    assert s[..i] == s;
    assert buf[..dv'] == buf[..dv] + buf[dv..dv + |s|];
  }

  method DumpStr(buf: array<byte>, dv0: nat, v: Option<bytes>, big: bool) returns (dv: nat)
    requires StrFits(v) && dv0 + |EncStr(v, big)| <= buf.Length
    modifies buf
    ensures dv == dv0 + |EncStr(v, big)| && buf[..dv] == old(buf[..dv0]) + EncStr(v, big)
  {
    hide PutU32;
    var slen := if v.Some? then |v.value| + 1 else 0;
    dv := Cpv(buf, dv0, PutU32(slen, big));
    if slen > 1 {
      dv := Cpv(buf, dv, v.value);
    }
    assert buf[..dv] == old(buf[..dv0]) + EncStr(v, big);
  }

  method DumpStrs(buf: array<byte>, dv0: nat, ss: seq<Option<bytes>>, big: bool) returns (dv: nat)
    requires (forall i | 0 <= i < |ss| :: StrFits(ss[i])) && dv0 + |EncStrs(ss, big)| <= buf.Length
    modifies buf
    ensures dv == dv0 + |EncStrs(ss, big)| && buf[..dv] == old(buf[..dv0]) + EncStrs(ss, big)
  {
    hide EncStr, StrFits;
    dv := dv0;
    var i := 0;
    ghost var goal := old(buf[..dv0]) + EncStrs(ss, big);
    assert ss[0..] == ss;
    while i < |ss|
      invariant 0 <= i <= |ss| && dv + |EncStrs(ss[i..], big)| == |goal|
      invariant dv <= buf.Length && buf[..dv] + EncStrs(ss[i..], big) == goal
    {
      assert ss[i..][1..] == ss[i + 1..];
      ghost var before := buf[..dv];
      dv := DumpStr(buf, dv, ss[i], big);
      Regroup(before, EncStr(ss[i], big), EncStrs(ss[i + 1..], big));
      i := i + 1;
    }
  }

  /** One field other than an array written. */
  method DumpLeaf(s: Shape, cell: Cell, buf: array<byte>, dv0: nat, o: Order) returns (dv: nat)
    requires WfShape(s) && !s.Pound? && !s.Ary? && TypedCell(s, cell) && !o.swap
    requires dv0 + |EncCell(s, cell, o)| <= buf.Length
    modifies buf
    ensures dv == dv0 + |EncCell(s, cell, o)| && buf[..dv] == old(buf[..dv0]) + EncCell(s, cell, o)
  {
    match s
    case Atom(_, _) =>
      dv := Cpv(buf, dv0, cell.bs);
    case Bin =>
      dv := Cpv(buf, dv0, PutU32(|cell.bs|, o.big));
      dv := Cpv(buf, dv, cell.bs);
      assert buf[..dv] == old(buf[..dv0]) + EncCell(s, cell, o);
    case Str(_) =>
      dv := DumpStrs(buf, dv0, cell.ss, o.big);
  }

  /** tpl_dump_atyp: the count word, then each element in packed order. */
  method DumpAtyp(n: TplNode, recs: seq<Record>, buf: array<byte>, dv0: nat, o: Order) returns (dv: nat)
    requires n.Wf() && n.shape.Ary? && TypedCell(n.shape, Arr(recs)) && ItersZero(n.repr) && !o.swap
    requires dv0 + |EncCell(n.shape, Arr(recs), o)| <= buf.Length
    modifies buf, n.repr`iternum
    ensures ItersZero(n.repr)
    ensures dv == dv0 + |EncCell(n.shape, Arr(recs), o)|
    ensures buf[..dv] == old(buf[..dv0]) + EncCell(n.shape, Arr(recs), o)
    decreases n.shape, 1
  {
    hide TypedRec, EncRec, Walk, WalkOk, TplNode.Wf;
    ghost var ns := n.shape.kids;
    WalkStart(n);
    ghost var goal := old(buf[..dv0]) + EncCell(n.shape, Arr(recs), o);
    dv := Cpv(buf, dv0, PutU32(|recs|, o.big));
    var i := 0;
    assert recs[0..] == recs;
    while i < |recs|
      invariant 0 <= i <= |recs| && ItersZero(n.repr) && TypedRecs(ns, recs[i..])
      invariant dv + |EncRecs(ns, recs[i..], o)| == |goal|
      invariant dv <= buf.Length && buf[..dv] + EncRecs(ns, recs[i..], o) == goal
    {
      WalkIsOk(ns);
      assert recs[i..][1..] == recs[i + 1..];
      ghost var before := buf[..dv];
      dv := DumpElement(n, recs[i], buf, dv, o);
      assert before + (EncRec(ns, Walk(ns), recs[i], o) + EncRecs(ns, recs[i + 1..], o)) == goal;
      i := i + 1;
    }
    assert buf[..dv] + [] == buf[..dv];
  }

  /** One element of an array, its fields in walk order. */
  method DumpElement(n: TplNode, rec: Record, buf: array<byte>, dv0: nat, o: Order) returns (dv: nat)
    requires n.Wf() && n.shape.Ary? && WalkOk(n.shape.kids, Walk(n.shape.kids))
    requires TypedRec(n.shape.kids, Walk(n.shape.kids), rec) && ItersZero(n.repr) && !o.swap
    requires dv0 + |EncRec(n.shape.kids, Walk(n.shape.kids), rec, o)| <= buf.Length
    modifies buf, n.repr`iternum
    ensures ItersZero(n.repr)
    ensures var e := EncRec(n.shape.kids, Walk(n.shape.kids), rec, o);
            dv == dv0 + |e| && buf[..dv] == old(buf[..dv0]) + e
    decreases n.shape, 0
  {
    hide ItersAt, Rest, Steps, InWalk, TplNode.Wf, EncCell, TypedCell, EncRec, TypedRec, WalkOk;
    ghost var ns := n.shape.kids;
    WalkStart(n);
    dv := dv0;
    var c: nat := 0;
    var it: nat := 0;
    var datav := 0;
    ghost var goal := old(buf[..dv0]) + EncRec(ns, Walk(ns), rec, o);
    assert rec[0..] == rec;
    while c < |n.kids|
      invariant c <= |n.kids| == |ns| && InWalk(ns, c, it) && ItersAt(n, c, it)
      invariant datav <= |rec| && WalkOk(ns, Rest(ns, c, it)) && TypedRec(ns, Rest(ns, c, it), rec[datav..])
      invariant dv + |EncRec(ns, Rest(ns, c, it), rec[datav..], o)| == |goal|
      invariant dv <= buf.Length && buf[..dv] + EncRec(ns, Rest(ns, c, it), rec[datav..], o) == goal
      decreases Steps(ns, c, it)
    {
      KidInRepr(n, c);
      var kid := n.kids[c];
      if kid.shape.Pound? {
        c, it := PoundStep(n, c, it);
      } else {
        FieldAhead(ns, c, it);
        ElementField(ns, c, it, rec[datav..], o);
        assert rec[datav..][0] == rec[datav] && rec[datav..][1..] == rec[datav + 1..];
        ItersField(n, c, it);
        ghost var before := buf[..dv];
        if kid.shape.Ary? {
          ItersOfZero(n, c);
          dv := DumpAtyp(kid, rec[datav].recs, buf, dv, o);
          assert ItersZero(n.repr);
          ItersOfZero(n, c + 1);
        } else {
          dv := DumpLeaf(kid.shape, rec[datav], buf, dv, o);
        }
        Regroup(before, EncCell(kid.shape, rec[datav], o), EncRec(ns, Rest(ns, c + 1, it), rec[datav + 1..], o));
        datav := datav + 1;
        c := c + 1;
      }
    }
    ItersAtEnd(n, it);
    ElementEnd(ns, it, rec[datav..], o);
  }

  lemma Regroup(a: bytes, b: bytes, c: bytes)
    ensures a + b + c == a + (b + c)
  {
  }

  lemma ElementField(ns: seq<Shape>, c: nat, it: nat, rec: Record, o: Order)
    requires WfKids(ns) && InWalk(ns, c, it) && c < |ns| && !ns[c].Pound? && WalkOk(ns, Rest(ns, c, it))
    requires TypedRec(ns, Rest(ns, c, it), rec)
    ensures InWalk(ns, c + 1, it) && WalkOk(ns, Rest(ns, c + 1, it))
    ensures rec != [] && TypedCell(ns[c], rec[0]) && TypedRec(ns, Rest(ns, c + 1, it), rec[1..])
    ensures ns[c].Ary? ==> rec[0].Arr? && rec[0] == Arr(rec[0].recs)
    ensures EncRec(ns, Rest(ns, c, it), rec, o) ==
            EncCell(ns[c], rec[0], o) + EncRec(ns, Rest(ns, c + 1, it), rec[1..], o)
  {
    hide Rest, EncCell;
    FieldAhead(ns, c, it);
    RestIsOk(ns, c + 1, it);
    assert Rest(ns, c, it)[1..] == Rest(ns, c + 1, it);
  }

  lemma ElementEnd(ns: seq<Shape>, it: nat, rec: Record, o: Order)
    requires WfKids(ns) && InWalk(ns, |ns|, it) && WalkOk(ns, Rest(ns, |ns|, it)) &&
             TypedRec(ns, Rest(ns, |ns|, it), rec)
    ensures EncRec(ns, Rest(ns, |ns|, it), rec, o) == []
  {
  }

  /** tpl_dump_to_mem behind the preamble: the root's fields from their slots, and its arrays. */
  method DumpRoot(n: TplNode, ghost full: Slots, buf: array<byte>, dv0: nat, o: Order) returns (dv: nat)
    requires n.Wf() && n.shape.Ary? && ItersZero(n.repr) && DataSized(n) && !o.swap
    requires RootSlots(n, full) && SlotsOk(n.shape.kids, full) && InWalk(n.shape.kids, 0, 0)
    requires dv0 + |EncRest(n.shape.kids, 0, 0, full, o)| <= buf.Length
    modifies buf, n.repr`iternum
    ensures ItersZero(n.repr)
    ensures var e := EncRest(n.shape.kids, 0, 0, full, o);
            dv == dv0 + |e| && buf[..dv] == old(buf[..dv0]) + e
  {
    hide ItersAt, EncRest, Rest, Steps, InWalk, TplNode.Wf, SlotsOk, EncCell, TypedCell, SlotCount;
    ghost var ns := n.shape.kids;
    WalkStart(n);
    dv := dv0;
    var c: nat := 0;
    var it: nat := 0;
    ghost var goal := old(buf[..dv0]) + EncRest(ns, 0, 0, full, o);
    while c < |n.kids|
      invariant c <= |n.kids| == |ns| && InWalk(ns, c, it) && ItersAt(n, c, it)
      invariant dv + |EncRest(ns, c, it, full, o)| == |goal|
      invariant dv <= buf.Length && buf[..dv] + EncRest(ns, c, it, full, o) == goal
      decreases Steps(ns, c, it)
    {
      KidInRepr(n, c);
      var kid := n.kids[c];
      if kid.shape.Pound? {
        ghost var c0, it0 := c, it;
        c, it := PoundStep(n, c, it);
        RestSame(ns, c0, it0, c, it, full, o);
      } else {
        FieldAhead(ns, c, it);
        RestOfField(ns, c, it, full, o);
        ItersField(n, c, it);
        ghost var before := buf[..dv];
        if kid.shape.Ary? {
          ItersOfZero(n, c);
          dv := DumpAtyp(kid, kid.bb, buf, dv, o);
          assert ItersZero(n.repr);
          ItersOfZero(n, c + 1);
        } else {
          dv := DumpLeaf(kid.shape, kid.data[it], buf, dv, o);
        }
        Regroup(before, EncCell(kid.shape, full[c][it], o), EncRest(ns, c + 1, it, full, o));
        c := c + 1;
      }
    }
    ItersAtEnd(n, it);
    RestAtEnd(ns, it, full, o);
  }
}
