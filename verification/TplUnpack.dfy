/** Unpacking: the walkers that read a checked image back, and the read positions of its arrays. */
module TplUnpack {
  import opened Bytes
  import opened TplWords
  import opened TplFormat
  import opened TplCodec
  import opened TplOrder
  import opened TplNodes
  import opened TplSerlen
  import opened TplPack
  import opened TplDump

  /** If the array has elements left, they parse from its read position inside the image. */
  ghost predicate Readable(n: TplNode, img: bytes, o: Order)
    requires n.Wf() && n.shape.Ary?
    reads n`num, n`cur
  {
    n.num > 0 ==>
      n.cur.Some? && n.cur.value <= |img| && ParseRecs(n.shape.kids, n.num, img, n.cur.value, o, Strict).Got?
  }

  /** The elements still to be unpacked. */
  ghost function Pending(n: TplNode, img: bytes, o: Order): (r: seq<Record>)
    requires n.Wf() && n.shape.Ary? && Readable(n, img, o)
    reads n`num, n`cur
    ensures |r| == n.num
  {
    if n.num == 0 then [] else ParseRecs(n.shape.kids, n.num, img, n.cur.value, o, Strict).val
  }

  /** The array branch of the unpack walkers: remember where the elements are, and step over them. */
  method OpenArray(kid: TplNode, img: bytes, dv: nat, o: Order) returns (dv': nat)
    requires kid.Wf() && kid.shape.Ary? && ItersZero(kid.repr) && dv <= |img|
    requires ParseCell(kid.shape, img, dv, o, Signed).Got?
    modifies kid.repr`iternum, {kid}`num, {kid}`cur
    ensures ItersZero(kid.repr) && dv' == ParseCell(kid.shape, img, dv, o, Signed).pos
    ensures var r := ParseCell(kid.shape, img, dv, o, Strict);
            r.Got? ==> dv' == r.pos && Readable(kid, img, o) && r.val == Arr(Pending(kid, img, o))
  {
    if ParseCell(kid.shape, img, dv, o, Strict).Got? {
      StrictCellIsAny(kid.shape, img, dv, o, Signed);
    }
    var ok, abytes := Serlen(kid, img, dv, o);
    var count := ReadU32(img, dv, o.big, o.swap);
    kid.num := count;
    kid.cur := Some(dv + 4);
    dv' := dv + abytes;
  }

  method ReadStr(img: bytes, dv0: nat, o: Order) returns (str: Option<bytes>, dv: nat)
    requires ParseStr(img, dv0, o.ImageBig()).Got?
    ensures ParseStr(img, dv0, o.ImageBig()) == Got(str, dv)
  {
    var slen := ReadU32(img, dv0, o.big, o.swap);
    dv := dv0 + 4;
    str := None;
    if slen > 0 {
      str := Some(img[dv..dv + slen - 1]);
      dv := dv + slen - 1;
    }
  }

  method ReadStrs(img: bytes, dv0: nat, num: nat, o: Order) returns (ss: seq<Option<bytes>>, dv: nat)
    requires ParseStrs(num, img, dv0, o.ImageBig()).Got?
    ensures ParseStrs(num, img, dv0, o.ImageBig()) == Got(ss, dv)
  {
    hide ParseStr, ParseStrs;
    ss, dv := [], dv0;
    var fidx := 0;
    ghost var all := ParseStrs(num, img, dv0, o.ImageBig());
    assert [] + all.val == all.val;
    while fidx < num
      invariant 0 <= fidx <= num
      invariant ParseStrs(num - fidx, img, dv, o.ImageBig()).Got?
      invariant var rest := ParseStrs(num - fidx, img, dv, o.ImageBig());
                ss + rest.val == all.val && rest.pos == all.pos
    {
      FirstStr(num - fidx, img, dv, o.ImageBig());
      ghost var rest := ParseStrs(num - fidx, img, dv, o.ImageBig()).val;
      var str;
      str, dv := ReadStr(img, dv, o);
      assert ss + ([str] + rest[1..]) == ss + [str] + rest[1..];
      ss := ss + [str];
      fidx := fidx + 1;
    }
    NoStrs(img, dv, o.ImageBig());
    assert ss + [] == ss;
  }

  lemma FirstStr(n: nat, img: bytes, dv: nat, big: bool)
    requires n > 0 && ParseStrs(n, img, dv, big).Got?
    ensures ParseStr(img, dv, big).Got?
    ensures var Got(v, q) := ParseStr(img, dv, big);
            var all, rest := ParseStrs(n, img, dv, big), ParseStrs(n - 1, img, q, big);
            rest.Got? && all.val == [v] + rest.val && all.val[1..] == rest.val && all.pos == rest.pos
  {
    hide ParseStr;
  }

  lemma NoStrs(img: bytes, dv: nat, big: bool)
    ensures ParseStrs(0, img, dv, big) == Got([], dv)
  {
  }

  /** The other branches: one field read out of the image. */
  method ReadLeaf(s: Shape, img: bytes, dv0: nat, o: Order) returns (cell: Cell, dv: nat)
    requires WfShape(s) && !s.Ary? && !s.Pound? && dv0 <= |img| && ParseCell(s, img, dv0, o, Strict).Got?
    ensures ParseCell(s, img, dv0, o, Strict) == Got(cell, dv)
  {
    match s
    case Atom(sz, num) =>
      var bs := ReadAtom(img, dv0, sz, num, o.swap);
      cell, dv := Raw(bs), dv0 + sz * num;
    case Bin =>
      var slen := ReadU32(img, dv0, o.big, o.swap);
      dv := dv0 + 4;
      cell := Buf(img[dv..dv + slen]);
      dv := dv + slen;
    case Str(num) =>
      var ss;
      ss, dv := ReadStrs(img, dv0, num, o);
      cell := Strs(ss);
  }

  /** A walker that stands at dv still has these slots to read, and will end at `end`. */
  ghost predicate ReadTo(ns: seq<Shape>, c: nat, it: nat, full: Slots, end: nat, img: bytes, dv: nat, o: Order)
    requires WfKids(ns) && SlotsOk(ns, full)
  {
    InWalk(ns, c, it) && dv <= |img| &&
    ParseRest(ns, c, it, img, dv, o, Strict) == Got(PickRest(ns, c, it, full), end)
  }

  lemma ReadField(ns: seq<Shape>, c: nat, it: nat, full: Slots, end: nat, img: bytes, dv: nat, o: Order)
    requires WfKids(ns) && SlotsOk(ns, full) && ReadTo(ns, c, it, full, end, img, dv, o) && c < |ns| && !ns[c].Pound?
    ensures it < |full[c]| && dv <= |img| && ParseCell(ns[c], img, dv, o, Strict).Got?
    ensures var Got(cell, q) := ParseCell(ns[c], img, dv, o, Strict);
            cell == full[c][it] && ReadTo(ns, c + 1, it, full, end, img, q, o)
  {
    hide PickRest, ParseRest, ParseCell, SlotsOk, SlotCount;
    SlotsSize(ns, full);
    RestOfField(ns, c, it, full, o);
    ParseRestField(ns, c, it, img, dv, o, Strict);
    var Got(cell, q) := ParseCell(ns[c], img, dv, o, Strict);
    var all, rest := PickRest(ns, c, it, full), ParseRest(ns, c + 1, it, img, q, o, Strict);
    assert all[0] == full[c][it] && all[1..] == PickRest(ns, c + 1, it, full);
    assert ([cell] + rest.val)[1..] == rest.val;
  }

  lemma ReadPound(ns: seq<Shape>, c: nat, it: nat, c': nat, it': nat, full: Slots, end: nat, img: bytes, dv: nat,
                  o: Order)
    requires WfKids(ns) && SlotsOk(ns, full) && ReadTo(ns, c, it, full, end, img, dv, o)
    requires InWalk(ns, c', it') && Rest(ns, c', it') == Rest(ns, c, it)
    ensures ReadTo(ns, c', it', full, end, img, dv, o)
  {
    ParseRestSame(ns, c, it, c', it', img, dv, o, Strict);
    RestSame(ns, c, it, c', it', full, o);
  }

  lemma ReadEnd(ns: seq<Shape>, it: nat, full: Slots, end: nat, img: bytes, dv: nat, o: Order)
    requires WfKids(ns) && SlotsOk(ns, full) && ReadTo(ns, |ns|, it, full, end, img, dv, o)
    ensures dv == end
  {
    ParseRestEnds(ns, it, img, dv, o, Strict);
  }

  /** This array stands ready to yield the elements that its slot holds. */
  ghost predicate ArrayRead(kid: TplNode, slots: seq<Cell>, img: bytes, o: Order)
    reads kid`num, kid`cur
  {
    kid.Wf() && kid.shape.Ary? && Readable(kid, img, o) && slots == [Arr(Pending(kid, img, o))]
  }

  /** The arrays among the first c fields do. */
  ghost predicate ArraysRead(n: TplNode, c: nat, full: Slots, img: bytes, o: Order)
    requires c <= |n.kids| == |full|
    reads KidSet(n)`num, KidSet(n)`cur
  {
    forall d | 0 <= d < c && n.kids[d].shape.Ary? :: ArrayRead(n.kids[d], full[d], img, o)
  }

  lemma ArrayIsRead(kid: TplNode, slots: seq<Cell>, img: bytes, o: Order)
    requires kid.Wf() && kid.shape.Ary? && Readable(kid, img, o) && |slots| == 1 &&
             slots[0] == Arr(Pending(kid, img, o))
    ensures ArrayRead(kid, slots, img, o)
  {
  }

  lemma ArraySlot(ns: seq<Shape>, c: nat, full: Slots)
    requires WfKids(ns) && SlotsOk(ns, full) && c < |ns| && ns[c].Ary?
    ensures |full[c]| == 1
  {
  }

  /** A walker that stands at dv goes on inside the image and ends at `end`, as the size walker has found. */
  ghost predicate Checked(ns: seq<Shape>, c: nat, it: nat, end: nat, img: bytes, dv: nat, o: Order)
    requires WfKids(ns)
  {
    && InWalk(ns, c, it) && dv <= |img|
    && var r := ParseRest(ns, c, it, img, dv, o, Signed);
       r.Got? && r.pos == end
  }

  lemma CheckedField(ns: seq<Shape>, c: nat, it: nat, end: nat, img: bytes, dv: nat, o: Order)
    requires WfKids(ns) && Checked(ns, c, it, end, img, dv, o) && c < |ns| && !ns[c].Pound?
    ensures dv <= |img| && ParseCell(ns[c], img, dv, o, Signed).Got?
    ensures Checked(ns, c + 1, it, end, img, ParseCell(ns[c], img, dv, o, Signed).pos, o)
  {
    hide ParseRest, ParseCell;
    ParseRestField(ns, c, it, img, dv, o, Signed);
  }

  lemma CheckedPound(ns: seq<Shape>, c: nat, it: nat, c': nat, it': nat, end: nat, img: bytes, dv: nat, o: Order)
    requires WfKids(ns) && Checked(ns, c, it, end, img, dv, o)
    requires InWalk(ns, c', it') && Rest(ns, c', it') == Rest(ns, c, it)
    ensures Checked(ns, c', it', end, img, dv, o)
  {
    ParseRestSame(ns, c, it, c', it', img, dv, o, Signed);
  }

  lemma CheckedEnd(ns: seq<Shape>, it: nat, end: nat, img: bytes, dv: nat, o: Order)
    requires WfKids(ns) && Checked(ns, |ns|, it, end, img, dv, o)
    ensures dv == end
  {
    ParseRestEnds(ns, it, img, dv, o, Signed);
  }

  /** What there is to read, when all counts are small. */
  ghost predicate ReadsAll(ns: seq<Shape>, c: nat, it: nat, full: Slots, end: nat, img: bytes, dv: nat, o: Order)
    requires WfKids(ns)
  {
    SlotsOk(ns, full) && ReadTo(ns, c, it, full, end, img, dv, o)
  }

  /**
   The walk of tpl_unpackA0: only the root's arrays are opened, everything else is stepped over. It ends
   where the size walker did; with small counts only, each array stands ready to yield its elements.
   */
  method UnpackA0(n: TplNode, img: bytes, dv0: nat, o: Order, ghost end: nat, ghost small: bool, ghost full: Slots)
    returns (dv: nat)
    requires n.Wf() && n.shape.Ary? && ItersZero(n.repr) && WfKids(n.shape.kids)
    requires Checked(n.shape.kids, 0, 0, end, img, dv0, o)
    requires small ==> ReadsAll(n.shape.kids, 0, 0, full, end, img, dv0, o)
    modifies n.repr`iternum, KidSet(n)`num, KidSet(n)`cur
    ensures ItersZero(n.repr) && dv == end
    ensures small ==> |n.kids| == |full| && ArraysRead(n, |n.kids|, full, img, o)
  {
    hide ItersAt, ReadsAll, Checked, ParseCell, Rest, Steps, InWalk, TplNode.Wf, Readable, Pending, ArrayRead, SlotsOk;
    ghost var ns := n.shape.kids;
    WalkStart(n);
    KidsDistinct(n);
    if small {
      ReadingSizes(ns, 0, 0, full, end, img, dv0, o);
    }
    dv := dv0;
    var c: nat := 0;
    var it: nat := 0;
    while c < |n.kids|
      invariant c <= |n.kids| == |ns| && InWalk(ns, c, it) && ItersAt(n, c, it)
      invariant Checked(ns, c, it, end, img, dv, o)
      invariant small ==> ReadsAll(ns, c, it, full, end, img, dv, o) && ArraysRead(n, c, full, img, o)
      decreases Steps(ns, c, it)
    {
      KidInRepr(n, c);
      var kid := n.kids[c];
      if kid.shape.Pound? {
        ghost var c0, it0 := c, it;
        c, it := PoundStep(n, c, it);
        CheckedPound(ns, c0, it0, c, it, end, img, dv, o);
        if small {
          ReadingPound(ns, c0, it0, c, it, full, end, img, dv, o);
        }
      } else {
        FieldAhead(ns, c, it);
        CheckedField(ns, c, it, end, img, dv, o);
        if small {
          ReadingField(ns, c, it, full, end, img, dv, o);
        }
        ItersField(n, c, it);
        if kid.shape.Ary? {
          ItersOfZero(n, c);
          dv := OpenArray(kid, img, dv, o);
          if small {
            ArrayIsRead(kid, full[c], img, o);
          }
          assert ItersZero(n.repr);
          ItersOfZero(n, c + 1);
        } else {
          dv := SkipLeaf(kid.shape, img, dv, o);
        }
        c := c + 1;
      }
    }
    ItersAtEnd(n, it);
    CheckedEnd(ns, it, end, img, dv, o);
  }

  lemma ReadingSizes(ns: seq<Shape>, c: nat, it: nat, full: Slots, end: nat, img: bytes, dv: nat, o: Order)
    requires WfKids(ns) && ReadsAll(ns, c, it, full, end, img, dv, o)
    ensures |full| == |ns|
  {
  }

  lemma ReadingField(ns: seq<Shape>, c: nat, it: nat, full: Slots, end: nat, img: bytes, dv: nat, o: Order)
    requires WfKids(ns) && ReadsAll(ns, c, it, full, end, img, dv, o) && c < |ns| && !ns[c].Pound?
    ensures dv <= |img| && |full| == |ns| && it < |full[c]| && ParseCell(ns[c], img, dv, o, Strict).Got?
    ensures ParseCell(ns[c], img, dv, o, Signed) == ParseCell(ns[c], img, dv, o, Strict)
    ensures var Got(cell, q) := ParseCell(ns[c], img, dv, o, Strict);
            cell == full[c][it] && ReadsAll(ns, c + 1, it, full, end, img, q, o)
    ensures ns[c].Ary? ==> |full[c]| == 1 && it == 0
  {
    hide ReadTo, ParseCell, SlotsOk, SlotCount;
    SlotsSize(ns, full);
    ReadField(ns, c, it, full, end, img, dv, o);
    StrictCellIsAny(ns[c], img, dv, o, Signed);
    if ns[c].Ary? {
      ArraySlot(ns, c, full);
    }
  }

  lemma ReadingPound(ns: seq<Shape>, c: nat, it: nat, c': nat, it': nat, full: Slots, end: nat, img: bytes, dv: nat,
                     o: Order)
    requires WfKids(ns) && ReadsAll(ns, c, it, full, end, img, dv, o)
    requires InWalk(ns, c', it') && Rest(ns, c', it') == Rest(ns, c, it)
    ensures ReadsAll(ns, c', it', full, end, img, dv, o)
  {
    ReadPound(ns, c, it, c', it', full, end, img, dv, o);
  }

  lemma SlotsSize(ns: seq<Shape>, full: Slots)
    requires WfKids(ns) && SlotsOk(ns, full)
    ensures |full| == |ns|
    ensures forall c | 0 <= c < |ns| :: |full[c]| == SlotCount(ns, c)
  {
  }

  /** The slots already read hold what the image says. */
  ghost predicate SlotsRead(ns: seq<Shape>, c: nat, it: nat, mem: Slots, full: Slots)
    requires WfLevel(ns) && InWalk(ns, c, it) && |mem| == |full| == |ns|
  {
    forall a: nat, k: nat | a < |ns| && !ns[a].Ary? && k < |full[a]| && (a, k) !in Rest(ns, c, it) ::
      k < |mem[a]| && mem[a][k] == full[a][k]
  }

  /** The walk of tpl_unpack: values go to the caller's variables, nested arrays are opened. */
  method UnpackFields(n: TplNode, mem0: Slots, img: bytes, dv0: nat, o: Order, ghost full: Slots, ghost end: nat)
    returns (mem: Slots, dv: nat)
    requires n.Wf() && n.shape.Ary? && ItersZero(n.repr) && WfKids(n.shape.kids) && SlotsOk(n.shape.kids, full)
    requires ReadTo(n.shape.kids, 0, 0, full, end, img, dv0, o) && MemSized(n, mem0)
    modifies n.repr`iternum, KidSet(n)`num, KidSet(n)`cur
    ensures ItersZero(n.repr) && dv == end && MemSized(n, mem)
    ensures |n.kids| == |full| && ArraysRead(n, |n.kids|, full, img, o)
    ensures forall c | 0 <= c < |n.kids| && !n.kids[c].shape.Ary? :: mem[c] == full[c]
  {
    hide ItersAt, ReadTo, ParseCell, Rest, Steps, InWalk, TplNode.Wf, Readable, Pending, ArrayRead, SlotsOk,
         SlotCount, SlotsRead;
    ghost var ns := n.shape.kids;
    WalkStart(n);
    KidsDistinct(n);
    SlotsSize(ns, full);
    mem, dv := mem0, dv0;
    var c: nat := 0;
    var it: nat := 0;
    NothingRead(ns, mem, full);
    while c < |n.kids|
      invariant c <= |n.kids| == |ns| && InWalk(ns, c, it) && ItersAt(n, c, it)
      invariant ReadTo(ns, c, it, full, end, img, dv, o)
      invariant ArraysRead(n, c, full, img, o) && MemSized(n, mem) && SlotsRead(ns, c, it, mem, full)
      decreases Steps(ns, c, it)
    {
      KidInRepr(n, c);
      var kid := n.kids[c];
      if kid.shape.Pound? {
        ghost var c0, it0 := c, it;
        c, it := PoundStep(n, c, it);
        ReadPound(ns, c0, it0, c, it, full, end, img, dv, o);
        SlotsReadPound(ns, c0, it0, c, it, mem, full);
      } else {
        FieldAhead(ns, c, it);
        ReadField(ns, c, it, full, end, img, dv, o);
        ItersField(n, c, it);
        if kid.shape.Ary? {
          ArraySlot(ns, c, full);
          ItersOfZero(n, c);
          StrictCellIsAny(ns[c], img, dv, o, Signed);
          dv := OpenArray(kid, img, dv, o);
          ArrayIsRead(kid, full[c], img, o);
          assert ItersZero(n.repr);
          ItersOfZero(n, c + 1);
          SlotReadArray(ns, c, it, mem, full);
        } else {
          var cell;
          cell, dv := ReadLeaf(kid.shape, img, dv, o);
          SlotRead(ns, c, it, mem, full, cell);
          mem := mem[c := mem[c][it := cell]];
        }
        c := c + 1;
      }
    }
    ItersAtEnd(n, it);
    ReadEnd(ns, it, full, end, img, dv, o);
    AllRead(ns, it, mem, full);
  }

  lemma NothingRead(ns: seq<Shape>, mem: Slots, full: Slots)
    requires WfKids(ns) && SlotsOk(ns, full) && |mem| == |ns|
    ensures InWalk(ns, 0, 0) && |full| == |ns| && SlotsRead(ns, 0, 0, mem, full)
  {
    AllAhead(ns);
  }

  lemma SlotRead(ns: seq<Shape>, c: nat, it: nat, mem: Slots, full: Slots, cell: Cell)
    requires WfKids(ns) && InWalk(ns, c, it) && c < |ns| && !ns[c].Pound? && InWalk(ns, c + 1, it)
    requires |mem| == |full| == |ns| && SlotsRead(ns, c, it, mem, full)
    requires it < |full[c]| && |mem[c]| == |full[c]| && cell == full[c][it]
    ensures SlotsRead(ns, c + 1, it, mem[c := mem[c][it := cell]], full)
  {
    FieldAhead(ns, c, it);
  }

  lemma SlotReadArray(ns: seq<Shape>, c: nat, it: nat, mem: Slots, full: Slots)
    requires WfKids(ns) && InWalk(ns, c, it) && c < |ns| && ns[c].Ary? && InWalk(ns, c + 1, it)
    requires |mem| == |full| == |ns| && SlotsRead(ns, c, it, mem, full)
    ensures SlotsRead(ns, c + 1, it, mem, full)
  {
    FieldAhead(ns, c, it);
  }

  lemma SlotsReadPound(ns: seq<Shape>, c: nat, it: nat, c': nat, it': nat, mem: Slots, full: Slots)
    requires WfKids(ns) && InWalk(ns, c, it) && InWalk(ns, c', it') && Rest(ns, c, it) == Rest(ns, c', it')
    requires |mem| == |full| == |ns| && SlotsRead(ns, c, it, mem, full)
    ensures SlotsRead(ns, c', it', mem, full)
  {
  }

  lemma AllRead(ns: seq<Shape>, it: nat, mem: Slots, full: Slots)
    requires WfKids(ns) && InWalk(ns, |ns|, it) && |mem| == |full| == |ns| && SlotsRead(ns, |ns|, it, mem, full)
    requires forall a | 0 <= a < |ns| && !ns[a].Ary? :: |mem[a]| == |full[a]|
    ensures forall a | 0 <= a < |ns| && !ns[a].Ary? :: mem[a] == full[a]
  {
    NothingAhead(ns, it);
    forall a | 0 <= a < |ns| && !ns[a].Ary?
      ensures mem[a] == full[a]
    {
      assert forall k: nat | k < |full[a]| :: (a, k) !in Rest(ns, |ns|, it);
    }
  }

  method SkipStr(img: bytes, dv0: nat, o: Order) returns (dv: nat)
    requires ParseStr(img, dv0, o.ImageBig()).Got?
    ensures dv == ParseStr(img, dv0, o.ImageBig()).pos
  {
    var slen := ReadU32(img, dv0, o.big, o.swap);
    dv := dv0 + 4;
    if slen > 1 {
      dv := dv + slen - 1;
    }
  }

  /** Stepping over one field without reading its value. */
  method SkipLeaf(s: Shape, img: bytes, dv0: nat, o: Order) returns (dv: nat)
    requires WfShape(s) && !s.Ary? && !s.Pound? && dv0 <= |img| && ParseCell(s, img, dv0, o, Signed).Got?
    ensures dv == ParseCell(s, img, dv0, o, Signed).pos <= |img|
  {
    hide ParseStr;
    match s
    case Atom(sz, num) =>
      dv := dv0;
      var fidx := 0;
      while fidx < num
        invariant 0 <= fidx <= num && dv == dv0 + sz * fidx
      {
        BlockStep(sz, fidx, num);
        dv := dv + sz;
        fidx := fidx + 1;
      }
    case Bin =>
      var slen := ReadU32(img, dv0, o.big, o.swap);
      dv := dv0 + 4;
      dv := dv + slen;
    case Str(num) =>
      dv := dv0;
      var i := 0;
      while i < num
        invariant 0 <= i <= num
        invariant var rest := ParseStrs(num - i, img, dv, o.ImageBig());
                  rest.Got? && rest.pos == ParseStrs(num, img, dv0, o.ImageBig()).pos
      {
        dv := SkipStr(img, dv, o);
        i := i + 1;
      }
  }

  // ------------------------------------------------------------------ records and slots determine each other

  ghost function SlotIndex(ns: seq<Shape>, a: nat, k: nat): (i: nat)
    requires WfLevel(ns) && a < |ns| && k < SlotCount(ns, a)
    ensures i < |Walk(ns)| && Walk(ns)[i] == (a, k)
  {
    WalkVisitsEachSlotOnce(ns);
    assert (a, k) in Walk(ns);
    var i :| 0 <= i < |Walk(ns)| && Walk(ns)[i] == (a, k);
    i
  }

  /** The slots a record fills. */
  ghost function SlotsOf(ns: seq<Shape>, rec: Record): (full: Slots)
    requires WfLevel(ns) && |rec| == |Walk(ns)|
  {
    seq(|ns|, a requires 0 <= a < |ns| =>
      seq(SlotCount(ns, a), k requires 0 <= k < SlotCount(ns, a) => rec[SlotIndex(ns, a, k)]))
  }

  lemma {:induction false} TypedAt(ns: seq<Shape>, w: seq<(nat, nat)>, rec: Record, i: nat)
    requires WfKids(ns) && WalkOk(ns, w) && TypedRec(ns, w, rec) && i < |w|
    ensures |rec| == |w| && TypedCell(ns[w[i].0], rec[i])
    decreases |w|
  {
    hide TypedCell;
    if i > 0 {
      TypedAt(ns, w[1..], rec[1..], i - 1);
    }
  }

  lemma SlotsOfFits(ns: seq<Shape>, rec: Record)
    requires WfKids(ns) && WalkOk(ns, Walk(ns)) && TypedRec(ns, Walk(ns), rec)
    ensures |rec| == |Walk(ns)| && SlotsOk(ns, SlotsOf(ns, rec))
  {
    hide TypedCell, TypedRec, WalkOk, SlotCount, WfLevel, Walk;
    WalkLength(ns, rec);
    var full := SlotsOf(ns, rec);
    forall a, k | 0 <= a < |ns| && 0 <= k < |full[a]|
      ensures TypedCell(ns[a], full[a][k])
    {
      TypedAt(ns, Walk(ns), rec, SlotIndex(ns, a, k));
    }
  }

  lemma WalkLength(ns: seq<Shape>, rec: Record)
    requires WfKids(ns) && WalkOk(ns, Walk(ns)) && TypedRec(ns, Walk(ns), rec)
    ensures |rec| == |Walk(ns)| && WfLevel(ns)
  {
  }

  lemma SlotIndexOf(ns: seq<Shape>, i: nat)
    requires WfLevel(ns) && i < |Walk(ns)|
    ensures var (a, k) := Walk(ns)[i];
            a < |ns| && k < SlotCount(ns, a) && SlotIndex(ns, a, k) == i
  {
    hide SlotCount, Walk;
    WalkVisitsEachSlotOnce(ns);
    var w := Walk(ns);
    assert (w[i].0, w[i].1) in w;
    assert w[SlotIndex(ns, w[i].0, w[i].1)] == w[i];
  }

  lemma SlotsOfTyped(ns: seq<Shape>, rec: Record)
    requires WfKids(ns) && WalkOk(ns, Walk(ns)) && TypedRec(ns, Walk(ns), rec)
    ensures |rec| == |Walk(ns)| && SlotsOk(ns, SlotsOf(ns, rec))
    ensures InWalk(ns, 0, 0) && PickRest(ns, 0, 0, SlotsOf(ns, rec)) == rec
  {
    hide TypedCell, TypedRec, WalkOk, SlotCount, SlotsOk, WfLevel;
    SlotsOfFits(ns, rec);
    WalkLength(ns, rec);
    var full := SlotsOf(ns, rec);
    RestInSlots(ns, 0, 0, full);
    forall i | 0 <= i < |Walk(ns)|
      ensures Pick(Walk(ns), full)[i] == rec[i]
    {
      SlotIndexOf(ns, i);
    }
  }

  /** Two sets of slots that give the same record are the same: unpacking loses nothing. */
  lemma PickIsInjective(ns: seq<Shape>, full: Slots, full': Slots)
    requires WfKids(ns) && SlotsOk(ns, full) && SlotsOk(ns, full') && InWalk(ns, 0, 0)
    requires PickRest(ns, 0, 0, full) == PickRest(ns, 0, 0, full')
    ensures full == full'
  {
    var w := Walk(ns);
    RestInSlots(ns, 0, 0, full);
    RestInSlots(ns, 0, 0, full');
    forall a | 0 <= a < |ns|
      ensures full[a] == full'[a]
    {
      forall k | 0 <= k < SlotCount(ns, a)
        ensures full[a][k] == full'[a][k]
      {
        var i := SlotIndex(ns, a, k);
        assert Pick(w, full)[i] == full[a][k] && Pick(w, full')[i] == full'[a][k];
      }
    }
  }
}
