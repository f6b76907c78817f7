/** A mapped format with its packed or loaded content: the operations a caller sees. */
module TplMaps {
  import opened Bytes
  import opened TplWords
  import opened TplFormat
  import opened TplCodec
  import opened TplNodes
  import opened TplSerlen
  import opened TplPack
  import opened TplDump
  import opened TplUnpack
  import opened TplImage
  import opened TplTree
  import opened TplSanity

  /** What a B field of the root holds before it is first packed. */
  const NO_BUFFER: Cell := Strs([])

  /** The content of a field's slot before it is first packed; memory is taken to be zero. */
  function Blank(s: Shape): (r: Cell)
    ensures s.Atom? ==> r.Raw? && |r.bs| == s.sz * s.num && forall i | 0 <= i < |r.bs| :: r.bs[i] == 0
    ensures s.Str? ==> r.Strs? && |r.ss| == s.num && forall i | 0 <= i < |r.ss| :: r.ss[i] == None
    ensures s.Bin? ==> r == Strs([])
  {
    match s
    case Atom(sz, num) => Raw(seq(sz * num, _ => 0))
    case Str(num) => Strs(seq(num, _ => None))
    case _ => NO_BUFFER
  }

  /** The caller's variables hold values of the types that the format names. */
  ghost predicate MemFits(n: TplNode, mem: Slots)
    requires n.Wf() && n.shape.Ary?
  {
    && MemSized(n, mem)
    && forall c, k | 0 <= c < |n.kids| && !n.kids[c].shape.Ary? && 0 <= k < |mem[c]| ::
         TypedCell(n.shape.kids[c], mem[c][k])
  }

  ghost predicate PackedArray(a: TplNode, o: Order)
    reads a`bb, a`num, a`serOsz
  {
    a.Wf() && a.shape.Ary? && Packed(a, o)
  }

  ghost predicate ReadableArray(a: TplNode, img: bytes, o: Order)
    reads a`num, a`cur
  {
    a.Wf() && a.shape.Ary? && Readable(a, img, o)
  }

  ghost function SlotsAt(k: TplNode, values: seq<Cell>, emptied: bool): seq<Cell>
    reads k`bb
  {
    match k.shape
    case Ary(_) => [Arr(if emptied then [] else k.bb)]
    case Pound(_, _) => []
    case _ => values
  }

  /** The content of a level: the given values, and what the arrays in it hold (or held, before being emptied). */
  ghost function Level(kids: seq<TplNode>, mem: Slots, emptied: bool): (full: Slots)
    requires |mem| == |kids|
    reads (set k | k in kids)`bb
    ensures |full| == |kids|
    ensures forall c | 0 <= c < |kids| :: full[c] == SlotsAt(kids[c], mem[c], emptied)
  {
    if kids == [] then [] else [SlotsAt(kids[0], mem[0], emptied)] + Level(kids[1..], mem[1..], emptied)
  }

  /** The content of a level whose arrays are empty. */
  ghost function EmptyLevel(kids: seq<TplNode>, mem: Slots): (full: Slots)
    requires |mem| == |kids|
    ensures |full| == |kids|
  {
    seq(|kids|, c requires 0 <= c < |kids| =>
      match kids[c].shape case Ary(_) => [Arr([])] case Pound(_, _) => [] case _ => mem[c])
  }

  lemma LevelIsEmpty(kids: seq<TplNode>, mem: Slots)
    requires |mem| == |kids|
    ensures Level(kids, mem, true) == EmptyLevel(kids, mem)
    ensures (forall c | 0 <= c < |kids| && kids[c].shape.Ary? :: kids[c].bb == []) ==>
            Level(kids, mem, false) == EmptyLevel(kids, mem)
  {
  }

  /** The packed values of the fields of a level. */
  ghost function Values(kids: seq<TplNode>): (mem: Slots)
    reads (set k | k in kids)`data
    ensures |mem| == |kids|
    ensures forall c | 0 <= c < |kids| :: mem[c] == kids[c].data
  {
    if kids == [] then [] else [kids[0].data] + Values(kids[1..])
  }

  lemma LevelOk(n: TplNode, mem: Slots, full: Slots, o: Order)
    requires n.Wf() && n.shape.Ary? && MemFits(n, mem) && KidsPacked(n, 0, o) && LevelSlots(n, mem, full)
    ensures WfKids(n.shape.kids) && SlotsOk(n.shape.kids, full)
  {
    hide TplNode.Wf, TypedRecs, EncRecs;
    KidsDistinct(n);
    if n.kids != [] {
      KidInRepr(n, 0);
    }
    forall c | 0 <= c < |n.kids|
      ensures |full[c]| == SlotCount(n.shape.kids, c)
      ensures forall k | 0 <= k < |full[c]| :: TypedCell(n.shape.kids[c], full[c][k])
    {
      KidInRepr(n, c);
      if n.kids[c].shape.Ary? {
        ArySize(n.kids[c], o);
        OneSlot(n.shape.kids, c);
      }
    }
  }

  lemma OneSlot(ns: seq<Shape>, c: nat)
    requires WfLevel(ns) && c < |ns| && ns[c].Ary?
    ensures SlotCount(ns, c) == 1
  {
  }

  lemma ListedInTree(n: TplNode, arrays: seq<TplNode>)
    requires n.Wf() && n.shape.Ary? && ArraysOf(n, arrays)
    ensures forall a | a in arrays :: a.Wf() && a.shape.Ary? && a in n.repr && a != n && a.repr <= n.repr
    ensures forall a | a in arrays :: Listed(a.kids, arrays)
    ensures Listed(n.kids, arrays)
  {
  }

  lemma ItersBelow(s: set<TplNode>, t: set<TplNode>)
    requires t <= s && ItersZero(s)
    ensures ItersZero(t)
  {
  }

  lemma KidsInTree(n: TplNode)
    requires n.Wf() && n.shape.Ary?
    ensures KidSet(n) <= n.repr && n in n.repr && n !in KidSet(n)
  {
    hide TplNode.Wf;
    SelfInRepr(n);
    forall k | k in n.kids
      ensures k in n.repr && k != n
    {
      var c :| 0 <= c < |n.kids| && n.kids[c] == k;
      KidInRepr(n, c);
    }
  }

  /** Data space for the fields of the root, one slot for each iteration of the loop over them. */
  method BlankFields(n: TplNode)
    requires n.Wf() && n.shape.Ary?
    modifies KidSet(n)`data
    ensures |n.kids| == |n.shape.kids|
    ensures forall c | 0 <= c < |n.kids| ::
              n.kids[c].data == seq(SlotCount(n.shape.kids, c), _ => Blank(n.kids[c].shape))
  {
    hide TplNode.Wf, SlotCount;
    KidsDistinct(n);
    var c := 0;
    while c < |n.kids|
      invariant 0 <= c <= |n.kids|
      invariant forall d | 0 <= d < c :: n.kids[d].data == seq(SlotCount(n.shape.kids, d), _ => Blank(n.kids[d].shape))
    {
      n.kids[c].data := seq(SlotCount(n.shape.kids, c), _ => Blank(n.kids[c].shape));
      c := c + 1;
    }
  }

  lemma WfRoot(f: Fmt)
    requires WfFmt(f)
    ensures f.root.Ary? && WfShape(f.root)
  {
  }

  lemma BlankSized(n: TplNode)
    requires n.Wf() && n.shape.Ary?
    requires |n.kids| == |n.shape.kids|
    requires forall c | 0 <= c < |n.kids| ::
               n.kids[c].data == seq(SlotCount(n.shape.kids, c), _ => Blank(n.kids[c].shape))
    ensures DataSized(n)
  {
  }

  lemma AllEmpty(n: TplNode, arrays: seq<TplNode>, o: Order)
    requires n.Wf() && n.shape.Ary? && ArraysOf(n, arrays)
    requires forall x | x in n.repr :: Emptied(x) && x.iternum == 0
    ensures ItersZero(n.repr) && KidSet(n) <= n.repr
    ensures forall a | a in arrays :: PackedArray(a, o) && Emptied(a) && a in n.repr
  {
    hide TplNode.Wf, Emptied;
    KidsInTree(n);
    ListedInTree(n, arrays);
    forall a | a in arrays
      ensures PackedArray(a, o)
    {
      EmptyIsPacked(a, o);
    }
  }

  class TplMap {
    const fmt: Fmt
    /** Byte order of the machine. */
    const big: bool
    const root: TplNode
    /** The arrays by number, in format order. */
    const pidx: seq<TplNode>
    var wronly: bool
    var rdonly: bool
    var xendian: bool
    var img: bytes
    ghost var excess: bool

    ghost predicate Tree() {
      WfFmt(fmt) && root.Wf() && root.shape == fmt.root && ArraysOf(root, pidx)
    }

    /** Byte order of the images this machine writes, and of the loaded image. */
    function Own(): Order {
      Order(big, false)
    }

    function Ord(): Order
      reads this`xendian
    {
      Order(big, xendian)
    }

    ghost predicate Writing()
      reads this`wronly, set a | a in pidx
    {
      && (forall a | a in pidx :: PackedArray(a, Own()))
      && (!wronly ==> forall a | a in pidx :: Emptied(a))
    }

    ghost predicate Loaded()
      requires WfFmt(fmt)
      reads this`img, this`excess, this`xendian
    {
      Accepted(fmt, img, big, excess) && SmallCounts(fmt, img, big) && OrderOf(img, big) == Ord()
    }

    ghost predicate Reading()
      requires WfFmt(fmt)
      reads this, set a | a in pidx
    {
      Loaded() && forall a | a in pidx :: ReadableArray(a, img, Ord())
    }

    /** Kept by every operation: nothing is read outside the image, sizes are right, no loop is left half done. */
    ghost predicate Valid()
      reads this, root.repr, set a | a in pidx
    {
      && Tree() && ItersZero(root.repr) && KidSet(root) <= root.repr && RootSized()
      && !(wronly && rdonly)
      && if rdonly then Reading() else Writing() && !xendian
    }

    ghost predicate RootSized()
      reads KidSet(root)`data
    {
      root.Wf() && root.shape.Ary? && DataSized(root)
    }

    /** Every field of the root has a value to dump; a B field has none until the root is packed. */
    ghost predicate RootReady()
      reads KidSet(root)`data
    {
      && RootSized()
      && forall c, k | 0 <= c < |root.kids| && !root.kids[c].shape.Ary? && 0 <= k < |root.kids[c].data| ::
           TypedCell(root.shape.kids[c], root.kids[c].data[k])
    }

    /** What a dump writes now. */
    ghost function Packing(): (full: Slots)
      reads KidSet(root)`bb, KidSet(root)`data
      ensures RootSlots(root, full)
    {
      Level(root.kids, Values(root.kids), false)
    }

    lemma PackingOk()
      requires Valid() && !rdonly && RootReady()
      ensures SlotsOk(Kids(fmt), Packing()) && KidsPacked(root, 0, Own())
    {
      hide TplNode.Wf, Packed, SlotCount, ArraysOf;
      ListedInTree(root, pidx);
      KidsDistinct(root);
      LevelOk(root, Values(root.kids), Packing(), Own());
    }

    /** tpl_map for an already parsed format. */
    constructor (fmt: Fmt, big: bool)
      requires WfFmt(fmt)
      ensures this.fmt == fmt && this.big == big && Valid() && !wronly && !rdonly
      ensures fresh(root.repr) && InFormatOrder(root.kids, pidx)
      ensures forall c | 0 <= c < |root.kids| && !root.kids[c].shape.Ary? ::
                root.kids[c].data == seq(SlotCount(fmt.root.kids, c), _ => Blank(root.kids[c].shape))
    {
      hide TplNode.Wf, ArraysOf, SlotCount, PackedArray, WfFmt, DataSized, InFormatOrder, Blank;
      WfRoot(fmt);
      var n, arrays := Build(fmt.root);
      KidsInTree(n);
      BlankFields(n);
      BlankSized(n);
      AllEmpty(n, arrays, Order(big, false));
      this.fmt, this.big := fmt, big;
      root, pidx := n, arrays;
      wronly, rdonly, xendian, img, excess := false, false, false, [], false;
    }

    /** tpl_find_i: number 0 is the root, the others are the arrays in format order. */
    method FindI(i: int) returns (n: TplNode?)
      requires Tree()
      ensures n == Node(i)
    {
      if i == 0 {
        return root;
      }
      var j := 0;
      while j < |pidx|
        invariant 0 <= j <= |pidx| && (i <= 0 || i > j)
      {
        if j + 1 == i {
          return pidx[j];
        }
        j := j + 1;
      }
      n := null;
    }

    ghost function Node(i: int): TplNode? {
      if i == 0 then root else if 0 < i <= |pidx| then pidx[i - 1] else null
    }

    /** tpl_free_keep_map: back to a freshly mapped format, but for the old values of some root fields. */
    method FreeKeepMap()
      requires Tree() && KidSet(root) <= root.repr && ItersZero(root.repr) && RootSized()
      modifies this`wronly, this`rdonly, this`xendian
      modifies root.repr`serOsz, root.repr`num, root.repr`bb, root.repr`cur, root.repr`data
      ensures Valid() && !wronly && !rdonly
      ensures forall a | a in pidx :: Emptied(a)
      ensures forall c | 0 <= c < |root.kids| ::
                root.kids[c].data == Cleared(root.kids[c].shape, old(root.kids[c].data))
    {
      hide TplNode.Wf, ArraysOf, SlotCount, Packed;
      FreeFields(root);
      ListEmpty(root, pidx, Own());
      wronly, rdonly, xendian := false, false, false;
    }

    /** The root's fields have values and the image's size fits in its size word. */
    ghost predicate Dumpable()
      requires Tree()
      reads KidSet(root)`bb, KidSet(root)`data
    {
      RootReady() && SlotsOk(Kids(fmt), Packing()) && ImageSize(fmt, Packing(), Own()) < TWO_32
    }

    /** What array a holds for the next pack, which on a loaded map first empties everything. */
    ghost function Held(a: TplNode): seq<Record>
      reads this`rdonly, a`bb
    {
      if rdonly then [] else a.bb
    }

    /** tpl_pack: take the caller's values for the root, or for one more element of an array. */
    method Pack(i: int, mem: Slots) returns (rc: int)
      requires Valid()
      requires Node(i) != null ==> Node(i).Wf() && Node(i).shape.Ary? && MemFits(Node(i), mem)
      requires 0 < i <= |pidx| ==> |Held(pidx[i - 1])| + 1 < TWO_31
      modifies this`wronly, this`rdonly, this`xendian
      modifies root.repr`iternum, root.repr`serOsz, root.repr`num, root.repr`bb, root.repr`cur, root.repr`data
      ensures Valid() && rc == if Node(i) == null then -1 else 0
      ensures if rc == -1 then unchanged(this) && unchanged(root.repr) else wronly && !rdonly
      ensures i == 0 ==>
                && (forall c | 0 <= c < |root.kids| && !root.kids[c].shape.Ary? :: root.kids[c].data == mem[c])
                && (forall a | a in pidx :: a.bb == old(Held(a)))
      ensures 0 < i <= |pidx| ==>
                var n, full := pidx[i - 1], old(Level(pidx[i - 1].kids, mem, rdonly));
                && WfKids(n.shape.kids) && SlotsOk(n.shape.kids, full) && InWalk(n.shape.kids, 0, 0)
                && n.bb == old(Held(n)) + [PickRest(n.shape.kids, 0, 0, full)]
                && (forall a | a in pidx && a != n :: a.bb == if a in n.kids then [] else old(Held(a)))
                && (!old(rdonly) ==> forall c | 0 <= c < |root.kids| :: root.kids[c].data == old(root.kids[c].data))
    {
      hide TplNode.Wf, ArraysOf, SlotCount, PackedArray, ReadableArray, SlotsOk, PickRest, DataSized, TypedCell;
      var n := FindI(i);
      if n == null {
        return -1;
      }
      StartPacking(n, mem);
      rc := 0;
      if i == 0 {
        PackFields(mem);
      } else {
        InTree(n);
        PackElement(n, mem);
      }
    }

    /** A loaded map is first made an empty one to pack. */
    method StartPacking(ghost n: TplNode, ghost mem: Slots)
      requires Valid() && n.Wf() && n.shape.Ary? && |mem| == |n.kids| && (n == root || n in pidx)
      modifies this`wronly, this`rdonly, this`xendian
      modifies root.repr`serOsz, root.repr`num, root.repr`bb, root.repr`cur, root.repr`data
      ensures Valid() && wronly
      ensures forall a | a in pidx :: a.bb == old(Held(a))
      ensures Level(n.kids, mem, false) == old(Level(n.kids, mem, rdonly))
      ensures !old(rdonly) ==> forall c | 0 <= c < |root.kids| :: root.kids[c].data == old(root.kids[c].data)
    {
      hide TplNode.Wf, ArraysOf, SlotCount, PackedArray, ReadableArray, DataSized, Level;
      ListedInTree(root, pidx);
      LevelIsEmpty(n.kids, mem);
      if rdonly {
        FreeKeepMap();
        LevelIsEmpty(n.kids, mem);
      }
      wronly := true;
    }

    lemma InTree(n: TplNode)
      requires Tree() && n in pidx
      ensures n.Wf() && n.shape.Ary? && KidSet(n) + {n} <= root.repr && Listed(n.kids, pidx)
    {
      hide TplNode.Wf, ArraysOf;
      ListedInTree(root, pidx);
      KidsInTree(n);
    }

    method PackFields(mem: Slots)
      requires Valid() && wronly && MemSized(root, mem)
      modifies root.repr`iternum, KidSet(root)`data
      ensures Valid()
      ensures forall c | 0 <= c < |root.kids| && !root.kids[c].shape.Ary? :: root.kids[c].data == mem[c]
    {
      hide TplNode.Wf, ArraysOf, SlotCount, PackedArray, MemSized, DataSized;
      PackRoot(root, mem);
    }

    method PackElement(n: TplNode, mem: Slots)
      requires Valid() && wronly && n in pidx && n.Wf() && n.shape.Ary? && MemFits(n, mem) && |n.bb| + 1 < TWO_31
      modifies root.repr`iternum, n`bb, n`num, n`serOsz, KidSet(n)`bb, KidSet(n)`num, KidSet(n)`serOsz
      ensures Valid()
      ensures var full := old(Level(n.kids, mem, false));
              && WfKids(n.shape.kids) && SlotsOk(n.shape.kids, full) && InWalk(n.shape.kids, 0, 0)
              && n.bb == old(n.bb) + [PickRest(n.shape.kids, 0, 0, full)]
      ensures forall a | a in pidx && a in n.kids :: a.bb == []
    {
      hide TplNode.Wf, ArraysOf, SlotCount, Packed, SlotsOk, PickRest, TypedCell;
      ListedInTree(root, pidx);
      ItersBelow(root.repr, n.repr);
      KidsInTree(n);
      WalkStart(n);
      ghost var full := Level(n.kids, mem, false);
      LevelOk(n, mem, full, Own());
      PackAry(n, mem, full, Own());
    }

    /** tpl_dump to memory: size the image, allocate it, fill it. */
    method Dump() returns (rc: int, addr: bytes)
      requires Valid() && (!rdonly ==> Dumpable())
      modifies root.repr`iternum
      ensures Valid() && rc == if rdonly then -1 else 0
      ensures !rdonly ==> Dumpable() && Packing() == old(Packing()) && addr == Image(fmt, Packing(), Own())
    {
      hide TplNode.Wf, ArraysOf, DataSized, PackedArray, SlotsOk, EncRest, Image, TypedCell, Packing, Dumpable;
      if rdonly {
        return -1, [];
      }
      DumpableFacts();
      PackingOk();
      ghost var full := Packing();
      var preamble := 4 + (|fmt.text| + 1) + 4 + 4 * |fmt.fxlens|;
      var sz := SerOsz(root, preamble, full, Own());
      var buf := new byte[sz];
      DumpToMem(fmt, root, full, buf, sz, Own());
      rc, addr := 0, buf[..];
    }

    lemma DumpableFacts()
      requires Tree() && Dumpable()
      ensures RootReady() && SlotsOk(Kids(fmt), Packing()) && ImageSize(fmt, Packing(), Own()) < TWO_32
    {
    }

    /**
     tpl_sanity on the buffer to be loaded. Numbers are read as the buffer's flag says, but swapped in any
     case if a load before has failed and left `xendian`, which is never taken back here.
     */
    method Sanity(excess_ok: bool) returns (rc: int)
      requires Tree() && ItersZero(root.repr) && CurrentStrings(fmt, img)
      modifies this`xendian, root.repr`iternum
      ensures xendian == (old(xendian) || (|img| >= 9 && img[..3] == [116, 112, 108] && (img[3] % 2 == 1) != big))
      ensures rc == 0 <==> AcceptedIn(fmt, img, Ord(), excess_ok)
      ensures rc != -8 ==> ItersZero(root.repr)
      ensures rc == -1 <==> |img| < 9
      ensures rc == -2 <==> |img| >= 9 && img[..3] != [116, 112, 108]
      ensures rc == -11 <==> |img| >= 9 && img[..3] == [116, 112, 108] && img[3] >= 4
      ensures rc == -3 <==> Headed(img) && !SizeOk(img, Ord(), excess_ok)
      ensures rc == -4 <==> SizeOk(img, Ord(), excess_ok) && exists k | 8 <= k < |img| ::
                img[k] != 0 && img[k] !in FMT_CHARS && 0 !in img[8..k]
      ensures rc == -5 <==>
                SizeOk(img, Ord(), excess_ok) && forall k | 8 <= k < |img| :: img[k] in FMT_CHARS
      ensures rc == -10 <==>
                SizeOk(img, Ord(), excess_ok) && Holds(img, 8, fmt.text + [0]) && DataStart(fmt) > |img|
      ensures rc == -7 <==>
                && SizeOk(img, Ord(), excess_ok) && Holds(img, 8, fmt.text + [0]) && DataStart(fmt) <= |img|
                && !PreambleOk(fmt, img, Ord())
      ensures rc == -8 <==> CutOff(fmt, img, Ord(), excess_ok)
      ensures -11 <= rc <= 0
      ensures rc == -6 ==> SizeOk(img, Ord(), excess_ok) && !Holds(img, 8, fmt.text + [0])
      ensures rc == -9 ==> SizeOk(img, Ord(), excess_ok) && PreambleOk(fmt, img, Ord())
    {
      hide TplNode.Wf, ArraysOf, GetU32, FxBytes, PreambleOk, AcceptedIn, CutOff, Holds;
      var bufsz := |img|;
      PreambleIsHeaded(fmt, img, Ord(), excess_ok);
      if bufsz < MINSIZE {
        return NOT_MINSIZE;
      }
      if img[..3] != MAGIC {
        return MAGIC_MISMATCH;
      }
      if (img[3] % 2 == 1) != big {
        xendian := true;
      }
      PreambleIsHeaded(fmt, img, Ord(), excess_ok);
      if img[3] >= 4 {
        return UNSUPPORTED_FLAGS;
      }
      var intlsz := ReadU32(img, 4, big, xendian);
      if !excess_ok && intlsz != bufsz {
        return INCONSISTENT_SZ;
      }
      rc := SanityOfBody(excess_ok);
    }

    /** The part of tpl_sanity behind the header. */
    method SanityOfBody(excess_ok: bool) returns (rc: int)
      requires Tree() && ItersZero(root.repr) && SizeOk(img, Ord(), excess_ok)
      modifies root.repr`iternum
      ensures rc == 0 <==> AcceptedIn(fmt, img, Ord(), excess_ok)
      ensures rc != INCONSISTENT_SZ2 ==> ItersZero(root.repr)
      ensures rc == FMT_INVALID <==> exists k | 8 <= k < |img| :: img[k] != 0 && img[k] !in FMT_CHARS && 0 !in img[8..k]
      ensures rc == FMT_MISSING_NUL <==> forall k | 8 <= k < |img| :: img[k] in FMT_CHARS
      ensures rc == INCONSISTENT_SZ4 <==> Holds(img, 8, fmt.text + [0]) && DataStart(fmt) > |img|
      ensures rc == FLEN_MISMATCH <==>
                Holds(img, 8, fmt.text + [0]) && DataStart(fmt) <= |img| && !PreambleOk(fmt, img, Ord())
      ensures rc == INCONSISTENT_SZ2 <==> CutOff(fmt, img, Ord(), excess_ok)
      ensures rc in {0, FMT_INVALID, FMT_MISSING_NUL, FMT_MISMATCH, INCONSISTENT_SZ4, FLEN_MISMATCH, INCONSISTENT_SZ2,
                     INCONSISTENT_SZ3}
      ensures rc == FMT_MISMATCH ==> !Holds(img, 8, fmt.text + [0])
      ensures rc == INCONSISTENT_SZ3 ==> PreambleOk(fmt, img, Ord())
    {
      hide TplNode.Wf, ArraysOf, GetU32, FxBytes, ParseRest;
      var bufsz := |img|;
      var dv, octothorpes;
      rc, dv, octothorpes := ScanFormat(fmt, img);
      if rc != 0 {
        return;
      }
      if dv + octothorpes * 4 > bufsz {
        return INCONSISTENT_SZ4;
      }
      var same;
      same, dv := CompareFxlens(fmt, img, dv, Ord());
      if !same {
        return FLEN_MISMATCH;
      }
      var ok, serlen := SerlenLevel(root, img, dv, Ord());
      if !ok {
        return INCONSISTENT_SZ2;
      }
      serlen := serlen + dv;
      if excess_ok && bufsz < serlen {
        return INCONSISTENT_SZ3;
      }
      if !excess_ok && serlen != bufsz {
        return INCONSISTENT_SZ3;
      }
      rc := 0;
    }

    /** What unpacking will yield from array a. */
    ghost function Left(a: TplNode): seq<Record>
      reads this, a`num, a`cur, a`bb
    {
      if rdonly then (if ReadableArray(a, img, Ord()) then Pending(a, img, Ord()) else [])
      else if a in root.kids then a.bb else []
    }

    ghost function SlotsLeft(k: TplNode, values: seq<Cell>): seq<Cell>
      reads this, k`num, k`cur, k`bb
    {
      match k.shape
      case Ary(_) => [Arr(Left(k))]
      case Pound(_, _) => []
      case _ => values
    }

    /** The content of a level after it is unpacked: the caller's variables, and what its arrays yield. */
    ghost function Yield(kids: seq<TplNode>, mem: Slots): (full: Slots)
      requires |mem| == |kids|
      reads this, (set k | k in kids)`num, (set k | k in kids)`cur, (set k | k in kids)`bb
      ensures |full| == |kids|
      ensures forall c | 0 <= c < |kids| :: full[c] == SlotsLeft(kids[c], mem[c])
    {
      if kids == [] then [] else [SlotsLeft(kids[0], mem[0])] + Yield(kids[1..], mem[1..])
    }

    /**
     Good enough to be loaded: no loop is left half done, and a map that is neither packed nor loaded is empty.
     Nothing is said of `xendian`, which a failed load may have left.
     */
    ghost predicate Fit()
      reads this`wronly, this`rdonly, this`xendian, root.repr, set a | a in pidx
    {
      && Tree() && ItersZero(root.repr) && KidSet(root) <= root.repr && RootSized()
      && (!wronly && !rdonly ==> forall a | a in pidx :: Emptied(a))
    }

    /** A failed load has left the flag that makes the next one swap all numbers. */
    predicate Swaps()
      reads this`wronly, this`rdonly, this`xendian
    {
      !wronly && !rdonly && xendian
    }

    lemma ValidIsFit()
      requires Valid()
      ensures Fit() && !Swaps()
    {
    }

    /** What an array of the root yields after a load. */
    ghost predicate RootHolds(full: Slots)
      reads this, set a | a in pidx, set k | k in root.kids
    {
      && |full| == |root.kids|
      && (forall c | 0 <= c < |root.kids| && root.kids[c].shape.Ary? :: full[c] == [Arr(Left(root.kids[c]))])
      && (forall a | a in pidx && a !in root.kids :: Left(a) == [])
    }

    /**
     tpl_load from memory: take a buffer that passes the checks, and open the arrays of the root. With a
     count of 2^31 or more it still says that all is well, but then the map is not valid for reading. After a
     load that failed, the checks read numbers in the wrong order; a buffer that passes them only then would
     be opened unchecked.
     */
    method Load(addr: bytes, excess_ok: bool) returns (rc: int)
      requires Fit() && CurrentStrings(fmt, addr)
      requires Swaps() && AcceptedIn(fmt, addr, Order(big, true), excess_ok) ==> Accepted(fmt, addr, big, excess_ok)
      modifies this
      modifies root.repr`iternum, root.repr`serOsz, root.repr`num, root.repr`bb, root.repr`cur, root.repr`data
      ensures rc == if Taken(fmt, addr, big, old(Swaps()), excess_ok) then 0 else -1
      ensures rc == 0 ==> Fit() && rdonly && !wronly && img == addr && excess == excess_ok && DataStart(fmt) <= |addr|
      ensures rc == 0 && SmallCounts(fmt, addr, big) ==> Valid() && RootHolds(Content(fmt, addr, big))
      ensures rc == -1 ==> !wronly && !rdonly && (Swaps() <==> old(Swaps()) || Foreign(addr, big))
      ensures rc == -1 && !CutOff(fmt, addr, Ord(), excess_ok) ==> Fit()
    {
      hide TplNode.Wf, ArraysOf, SlotCount, PackedArray, SlotsOk, DataSized, SmallCounts, Content, ParseRest,
           Readable, Pending, RootHolds, AcceptedIn, Accepted, Taken, CutOff;
      if wronly || rdonly {
        FreeKeepMap();
      }
      rc := LoadFresh(addr, excess_ok);
    }

    /** The part of tpl_load behind the reset. */
    method LoadFresh(addr: bytes, excess_ok: bool) returns (rc: int)
      requires Fit() && CurrentStrings(fmt, addr) && !wronly && !rdonly
      requires Swaps() && AcceptedIn(fmt, addr, Order(big, true), excess_ok) ==> Accepted(fmt, addr, big, excess_ok)
      modifies this
      modifies root.repr`iternum, KidSet(root)`num, KidSet(root)`cur
      ensures rc == if Taken(fmt, addr, big, old(Swaps()), excess_ok) then 0 else -1
      ensures rc == 0 ==> Fit() && rdonly && !wronly && img == addr && excess == excess_ok && DataStart(fmt) <= |addr|
      ensures rc == 0 && SmallCounts(fmt, addr, big) ==> Valid() && RootHolds(Content(fmt, addr, big))
      ensures rc == -1 ==> !wronly && !rdonly && (Swaps() <==> old(Swaps()) || Foreign(addr, big))
      ensures rc == -1 && !CutOff(fmt, addr, Ord(), excess_ok) ==> Fit()
    {
      hide TplNode.Wf, ArraysOf, SlotCount, PackedArray, SlotsOk, DataSized, SmallCounts, Content, ParseRest,
           Readable, Pending, RootHolds, AcceptedIn, Accepted, Taken, CutOff;
      TakenIs(fmt, addr, big, xendian, excess_ok);
      img := addr;
      rc := Sanity(excess_ok);
      if rc != 0 {
        return -1;
      }
      wronly, rdonly, xendian := false, true, false;
      excess := excess_ok;
      OpenRoot();
    }

    method OpenRoot()
      requires Tree() && ItersZero(root.repr) && RootSized() && !xendian && KidSet(root) <= root.repr
      requires !wronly && rdonly && (forall a | a in pidx :: Emptied(a)) && Accepted(fmt, img, big, excess)
      modifies this`xendian, root.repr`iternum, KidSet(root)`num, KidSet(root)`cur
      ensures Tree() && ItersZero(root.repr) && RootSized() && DataStart(fmt) <= |img|
      ensures SmallCounts(fmt, img, big) ==> Valid() && RootHolds(Content(fmt, img, big))
    {
      hide TplNode.Wf, ArraysOf, SlotCount, SlotsOk, DataSized, Content, ParseRest, ReadTo, ReadableArray, Left,
           ArraysRead, SmallCounts, Checked, RootHolds;
      ListedInTree(root, pidx);
      AcceptedIsChecked(fmt, img, big, excess);
      if (img[3] % 2 == 1) != big {
        xendian := true;
      }
      ghost var small := SmallCounts(fmt, img, big);
      ghost var full: Slots := [];
      ghost var end := ParseRest(Kids(fmt), 0, 0, img, DataStart(fmt), Ord(), Signed).pos;
      if small {
        AcceptedReadsTo(fmt, img, big, excess);
        full := Content(fmt, img, big);
      }
      var dv := FindDataStart(fmt, img);
      dv := UnpackA0(root, img, dv, Ord(), end, small, full);
      if small {
        RootOpened(full);
      }
    }

    lemma RootOpened(full: Slots)
      requires Tree() && rdonly && |full| == |root.kids| && ArraysRead(root, |root.kids|, full, img, Ord())
      requires forall a | a in pidx && a !in root.kids :: a.num == 0
      ensures forall a | a in pidx :: ReadableArray(a, img, Ord())
      ensures RootHolds(full)
    {
      hide TplNode.Wf, ArraysOf;
      ListedInTree(root, pidx);
      forall a | a in pidx
        ensures ReadableArray(a, img, Ord())
      {
        if a in root.kids {
          var c :| 0 <= c < |root.kids| && root.kids[c] == a;
          assert ArrayRead(root.kids[c], full[c], img, Ord());
        }
      }
    }

    /** tpl_unpack: the next element of an array (or the root's fields) goes to the caller's variables. */
    method Unpack(i: int, mem0: Slots) returns (rc: int, mem: Slots)
      requires Valid() && (wronly || rdonly) && (wronly ==> Dumpable())
      requires Node(i) != null ==> Node(i).Wf() && Node(i).shape.Ary? && MemSized(Node(i), mem0)
      modifies this
      modifies root.repr`iternum, root.repr`serOsz, root.repr`num, root.repr`bb, root.repr`cur, root.repr`data
      ensures Valid() && rdonly && !wronly && Loaded()
      ensures if old(wronly) then img == Image(fmt, old(Packing()), Own()) else img == old(img)
      ensures rc == if i == 0 then 1 else if 0 < i <= |pidx| then |old(Left(pidx[i - 1]))| else -1
      ensures rc <= 0 ==> mem == mem0 && forall a | a in pidx :: Left(a) == old(Left(a))
      ensures rc > 0 ==>
                MemSized(Node(i), mem) &&
                forall a | a in pidx && a != Node(i) && a !in Node(i).kids :: Left(a) == old(Left(a))
      ensures i == 0 ==> DataStart(fmt) <= |img| && Yield(root.kids, mem) == Content(fmt, img, big)
      ensures i == 0 && old(wronly) ==> Yield(root.kids, mem) == old(Packing())
      ensures 0 < i <= |pidx| && rc > 0 ==>
                var n := pidx[i - 1];
                && Left(n) == old(Left(n))[1..]
                && WfKids(n.shape.kids) && InWalk(n.shape.kids, 0, 0) && SlotsOk(n.shape.kids, Yield(n.kids, mem))
                && PickRest(n.shape.kids, 0, 0, Yield(n.kids, mem)) == old(Left(n))[0]
    {
      hide TplNode.Wf, ArraysOf, SlotCount, SlotsOk, DataSized, RootReady, PackedArray, Content, Image, Accepted,
           SmallCounts, OrderOf, PickRest, TypedCell, ReadableArray, Left, Yield, Packing, Dumpable, MemSized;
      if wronly {
        DumpAndLoad();
      }
      var n := FindI(i);
      if n == null {
        return -1, mem0;
      }
      if i == 0 {
        mem := UnpackRoot(mem0);
        rc := 1;
      } else {
        InTree(n);
        rc, mem := UnpackElement(n, mem0);
      }
    }

    /** Unpacking what was packed without a dump in between. */
    method DumpAndLoad()
      requires Valid() && wronly && Dumpable()
      modifies this
      modifies root.repr`iternum, root.repr`serOsz, root.repr`num, root.repr`bb, root.repr`cur, root.repr`data
      ensures Valid() && rdonly && Loaded() && img == Image(fmt, old(Packing()), Own()) && DataStart(fmt) <= |img|
      ensures Content(fmt, img, big) == old(Packing())
      ensures forall a | a in pidx :: Left(a) == old(Left(a))
    {
      hide TplNode.Wf, ArraysOf, SlotCount, SlotsOk, DataSized, RootReady, PackedArray, ReadableArray, Content, Image,
           Accepted, SmallCounts, OrderOf, UsesStrings;
      ghost var full := Packing();
      var rc, addr := Dump();
      ImageIsAccepted(fmt, full, Own());
      ImageFlags(fmt, full, Own());
      rc := Load(addr, false);
      forall a | a in pidx
        ensures Left(a) == old(Left(a))
      {
        if a in root.kids {
          InTree(a);
          var c :| 0 <= c < |root.kids| && root.kids[c] == a;
          assert full[c] == [Arr(old(a.bb))];
        }
      }
    }

    method UnpackRoot(mem0: Slots) returns (mem: Slots)
      requires Valid() && rdonly && MemSized(root, mem0)
      modifies root.repr`iternum, KidSet(root)`num, KidSet(root)`cur
      ensures Valid() && DataStart(fmt) <= |img| && MemSized(root, mem)
      ensures Yield(root.kids, mem) == Content(fmt, img, big)
      ensures forall a | a in pidx && a !in root.kids :: Left(a) == old(Left(a))
    {
      hide TplNode.Wf, ArraysOf, SlotCount, SlotsOk, DataSized, Content, ParseRest, ReadTo, ReadableArray, Left,
           Yield, ArraysRead;
      ListedInTree(root, pidx);
      AcceptedReadsTo(fmt, img, big, excess);
      ghost var full := Content(fmt, img, big);
      ghost var end := ParseRest(Kids(fmt), 0, 0, img, DataStart(fmt), Ord(), Strict).pos;
      var dv := FindDataStart(fmt, img);
      mem, dv := UnpackFields(root, mem0, img, dv, Ord(), full, end);
      YieldIs(root, mem, full);
    }

    method UnpackElement(n: TplNode, mem0: Slots) returns (rc: int, mem: Slots)
      requires Valid() && rdonly && n in pidx && n.Wf() && n.shape.Ary? && MemSized(n, mem0)
      modifies root.repr`iternum, n`num, n`cur, KidSet(n)`num, KidSet(n)`cur
      ensures Valid() && rc == |old(Left(n))|
      ensures rc == 0 ==> mem == mem0 && forall a | a in pidx :: Left(a) == old(Left(a))
      ensures forall a | a in pidx && a != n && a !in n.kids :: Left(a) == old(Left(a))
      ensures rc > 0 ==>
                && Left(n) == old(Left(n))[1..] && MemSized(n, mem)
                && WfKids(n.shape.kids) && InWalk(n.shape.kids, 0, 0) && SlotsOk(n.shape.kids, Yield(n.kids, mem))
                && PickRest(n.shape.kids, 0, 0, Yield(n.kids, mem)) == old(Left(n))[0]
    {
      hide TplNode.Wf, ArraysOf, SlotCount, SlotsOk, DataSized, Accepted, SmallCounts, OrderOf, PickRest, Readable,
           Pending, ReadableArray, Left, Yield, ArraysRead, MemSized;
      InTree(n);
      ListedInTree(root, pidx);
      ItersBelow(root.repr, n.repr);
      rc, mem := 0, mem0;
      LeftIsPending(n);
      if n.num > 0 {
        ghost var full;
        rc, mem, full := NextOfArray(n, mem0, img, Ord());
        ReadableAgain(n, img, Ord());
        LeftIsPending(n);
        YieldIs(n, mem, full);
      }
    }

    lemma LeftIsPending(a: TplNode)
      requires rdonly && ReadableArray(a, img, Ord())
      ensures Readable(a, img, Ord()) && Left(a) == Pending(a, img, Ord())
    {
    }

    /** After a level is unpacked, its variables and its opened arrays are its content. */
    lemma YieldIs(n: TplNode, mem: Slots, full: Slots)
      requires rdonly && n.Wf() && n.shape.Ary? && WfKids(n.shape.kids) && SlotsOk(n.shape.kids, full)
      requires |full| == |n.kids| == |mem| && ArraysRead(n, |n.kids|, full, img, Ord())
      requires forall c | 0 <= c < |n.kids| && !n.kids[c].shape.Ary? :: mem[c] == full[c]
      ensures Yield(n.kids, mem) == full
      ensures forall k | k in n.kids && k.shape.Ary? :: ReadableArray(k, img, Ord())
    {
      hide TplNode.Wf, SlotsOk, Readable, Pending;
      NoPoundSlots(n, full);
      forall c | 0 <= c < |n.kids|
        ensures Yield(n.kids, mem)[c] == full[c]
      {
        if n.kids[c].shape.Ary? {
          assert ArrayRead(n.kids[c], full[c], img, Ord());
          LeftIsPending(n.kids[c]);
        }
      }
    }
  }

  lemma ReadableAgain(n: TplNode, img: bytes, o: Order)
    requires n.Wf() && n.shape.Ary? && Readable(n, img, o)
    ensures ReadableArray(n, img, o)
  {
  }

  /** The walk of tpl_unpack on an array that is not used up. */
  method NextOfArray(n: TplNode, mem0: Slots, img: bytes, o: Order) returns (rc: nat, mem: Slots, ghost full: Slots)
    requires n.Wf() && n.shape.Ary? && ItersZero(n.repr) && MemSized(n, mem0) && n.num > 0 && Readable(n, img, o)
    modifies n.repr`iternum, n`num, n`cur, KidSet(n)`num, KidSet(n)`cur
    ensures ItersZero(n.repr) && rc == old(n.num) && MemSized(n, mem)
    ensures Readable(n, img, o) && Pending(n, img, o) == old(Pending(n, img, o))[1..]
    ensures WfKids(n.shape.kids) && SlotsOk(n.shape.kids, full) && InWalk(n.shape.kids, 0, 0)
    ensures PickRest(n.shape.kids, 0, 0, full) == old(Pending(n, img, o))[0]
    ensures |full| == |n.kids| && ArraysRead(n, |n.kids|, full, img, o)
    ensures |mem| == |n.kids| && forall c | 0 <= c < |n.kids| && !n.kids[c].shape.Ary? :: mem[c] == full[c]
  {
    hide TplNode.Wf, SlotCount, SlotsOk, ReadTo, PickRest, ParseRecs, ArrayRead;
    WalkStart(n);
    KidsInTree(n);
    ghost var end;
    full, end := NextElement(n.shape.kids, n.num, img, n.cur.value, o);
    rc := n.num;
    n.num := n.num - 1;
    var dv;
    mem, dv := UnpackFields(n, mem0, img, n.cur.value, o, full, end);
    n.cur := Some(dv);
  }

  lemma NoPoundSlots(n: TplNode, full: Slots)
    requires n.Wf() && n.shape.Ary? && WfKids(n.shape.kids) && SlotsOk(n.shape.kids, full)
    ensures |full| == |n.kids| && forall c | 0 <= c < |n.kids| && n.kids[c].shape.Pound? :: full[c] == []
  {
    hide TplNode.Wf;
    KidsDistinct(n);
  }

  /** The first element still in an image, and the others behind it. */
  lemma NextElement(ns: seq<Shape>, num: nat, img: bytes, cur: nat, o: Order) returns (full: Slots, end: nat)
    requires WfKids(ns) && num > 0 && cur <= |img| && ParseRecs(ns, num, img, cur, o, Strict).Got?
    ensures SlotsOk(ns, full) && ReadTo(ns, 0, 0, full, end, img, cur, o) && end <= |img|
    ensures PickRest(ns, 0, 0, full) == ParseRecs(ns, num, img, cur, o, Strict).val[0]
    ensures var rest := ParseRecs(ns, num - 1, img, end, o, Strict);
            rest.Got? && rest.val == ParseRecs(ns, num, img, cur, o, Strict).val[1..]
  {
    hide ParseRec, SlotsOk, PickRest, Rest;
    WalkIsOk(ns);
    var r := ParseRec(ns, Walk(ns), img, cur, o, Strict);
    EncOfParseRec(ns, Walk(ns), img, cur, o);
    SlotsOfTyped(ns, r.val);
    full, end := SlotsOf(ns, r.val), r.pos;
  }

  /** The image starts as an image does, with flags that are known. */
  predicate Headed(img: bytes) {
    |img| >= 9 && img[..3] == [116, 112, 108] && img[3] < 4
  }

  /** And its size word is its size, if that matters. */
  predicate SizeOk(img: bytes, o: Order, excess_ok: bool) {
    Headed(img) && (excess_ok || GetU32(img[4..8], o.ImageBig()) == |img|)
  }

  /** All is well up to the data, which ends too early. */
  ghost predicate CutOff(f: Fmt, img: bytes, o: Order, excess_ok: bool)
    requires WfFmt(f)
  {
    && SizeOk(img, o, excess_ok) && PreambleOk(f, img, o) && DataStart(f) <= |img|
    && ParseRest(Kids(f), 0, 0, img, DataStart(f), o, Signed).Bad?
  }

  /** An image of a machine of the other byte order, as far as its first bytes say. */
  predicate Foreign(img: bytes, big: bool) {
    |img| >= 9 && img[..3] == [116, 112, 108] && (img[3] % 2 == 1) != big
  }

  /** The buffers that are loaded; `swaps` is left from a load that failed before. */
  ghost predicate Taken(f: Fmt, img: bytes, big: bool, swaps: bool, excess_ok: bool)
    requires WfFmt(f)
  {
    if swaps then AcceptedIn(f, img, Order(big, true), excess_ok) else Accepted(f, img, big, excess_ok)
  }

  lemma TakenIs(f: Fmt, img: bytes, big: bool, swaps: bool, excess_ok: bool)
    requires WfFmt(f)
    ensures AcceptedIn(f, img, Order(big, swaps || Foreign(img, big)), excess_ok) <==>
            Taken(f, img, big, swaps, excess_ok)
    ensures !swaps ==> (Taken(f, img, big, swaps, excess_ok) <==> Accepted(f, img, big, excess_ok))
    ensures swaps ==>
              (Taken(f, img, big, swaps, excess_ok) <==> AcceptedIn(f, img, Order(big, true), excess_ok))
  {
    hide ParseRest, GetU32, FxBytes;
  }

  lemma PreambleIsHeaded(f: Fmt, img: bytes, o: Order, excess_ok: bool)
    requires WfFmt(f)
    ensures PreambleOk(f, img, o) ==> Headed(img) && Holds(img, 8, f.text + [0]) && DataStart(f) <= |img|
    ensures AcceptedIn(f, img, o, excess_ok) || CutOff(f, img, o, excess_ok) ==> SizeOk(img, o, excess_ok)
  {
    hide ParseRest, GetU32, FxBytes;
  }

  /** Strings are in the current format: the image says so if the format has any. */
  ghost predicate CurrentStrings(f: Fmt, img: bytes) {
    |img| > 3 && UsesStrings(f.root) ==> img[3] / 2 % 2 == 1
  }

  lemma AcceptedIsChecked(f: Fmt, img: bytes, big: bool, excess: bool)
    requires WfFmt(f) && Accepted(f, img, big, excess)
    ensures DataStart(f) <= |img| && |img| > 3 && Holds(img, 8, f.text + [0])
    ensures var o := OrderOf(img, big);
            Checked(Kids(f), 0, 0, ParseRest(Kids(f), 0, 0, img, DataStart(f), o, Signed).pos, img, DataStart(f), o)
  {
    hide ParseRest;
    AcceptedIsReadIff(f, img, big, excess);
  }

  lemma AcceptedReadsTo(f: Fmt, img: bytes, big: bool, excess: bool)
    requires WfFmt(f) && Accepted(f, img, big, excess) && SmallCounts(f, img, big)
    ensures DataStart(f) <= |img| && |img| > 3 && Holds(img, 8, f.text + [0])
    ensures var o := OrderOf(img, big);
            var r := ParseRest(Kids(f), 0, 0, img, DataStart(f), o, Strict);
            && r.Got? && ReadsAll(Kids(f), 0, 0, Content(f, img, big), r.pos, img, DataStart(f), o)
            && r == ParseRest(Kids(f), 0, 0, img, DataStart(f), o, Signed)
  {
    hide ParseRest, Content;
    AcceptedReadsToEnd(f, img, big, excess, Signed);
  }

  method WritePreamble(f: Fmt, buf: array<byte>, sz: nat, big: bool) returns (dv: nat)
    requires WfFmt(f) && sz < TWO_32 && buf.Length >= DataStart(f)
    modifies buf
    ensures dv == DataStart(f) && buf[..dv] == Preamble(f, sz, big)
  {
    hide PutU32, FxBytes;
    dv := Cpv(buf, 0, MAGIC);
    dv := Cpv(buf, dv, [FlagsOf(f.text, big)]);
    dv := Cpv(buf, dv, PutU32(sz, big));
    dv := Cpv(buf, dv, f.text + [0]);
    dv := Cpv(buf, dv, FxBytes(f.fxlens, big));
  }

  /** tpl_dump_to_mem: the buffer of the computed size is filled exactly. */
  method DumpToMem(f: Fmt, n: TplNode, ghost full: Slots, buf: array<byte>, sz: nat, o: Order)
    requires WfFmt(f) && n.Wf() && n.shape == f.root && ItersZero(n.repr) && DataSized(n) && !o.swap
    requires RootSlots(n, full) && SlotsOk(Kids(f), full)
    requires sz == buf.Length == ImageSize(f, full, o) < TWO_32
    modifies buf, n.repr`iternum
    ensures ItersZero(n.repr) && buf[..] == Image(f, full, o)
  {
    hide EncRest, TplNode.Wf, SlotsOk, Preamble;
    var dv := WritePreamble(f, buf, sz, o.big);
    ghost var head := buf[..dv];
    dv := DumpRoot(n, full, buf, dv, o);
    assert buf[..dv] == buf[..];
  }

  /** What tpl_free_keep_map leaves of a root field's values. */
  function Cleared(s: Shape, data: seq<Cell>): (r: seq<Cell>)
    ensures |r| == |data|
    ensures forall k | 0 <= k < |data| ::
              if s.Bin? then r[k] == Strs([])
              else if s.Str? && k == 0 then
                r[k].Strs? && |r[k].ss| == s.num && forall i | 0 <= i < s.num :: r[k].ss[i] == None
              else r[k] == data[k]
  {
    match s
    case Bin => seq(|data|, _ => NO_BUFFER)
    case Str(num) => if data == [] then [] else data[0 := Strs(seq(num, _ => None))]
    case _ => data
  }

  /** The fields of the root in tpl_free_keep_map. Of a string field in a loop only the first slot is cleared. */
  method FreeFields(n: TplNode)
    requires n.Wf() && n.shape.Ary? && DataSized(n)
    modifies n.repr`serOsz, n.repr`num, n.repr`bb, n.repr`cur, KidSet(n)`data
    ensures DataSized(n)
    ensures forall d | 0 <= d < |n.kids| && n.kids[d].shape.Ary? :: AllEmptied(n.kids[d].repr)
    ensures forall d | 0 <= d < |n.kids| :: n.kids[d].data == Cleared(n.kids[d].shape, old(n.kids[d].data))
  {
    hide TplNode.Wf, SlotCount, AllEmptied;
    KidsDistinct(n);
    KidsDisjoint(n);
    var c := 0;
    while c < |n.kids|
      invariant 0 <= c <= |n.kids| && DataSized(n)
      invariant forall d | 0 <= d < c && n.kids[d].shape.Ary? :: AllEmptied(n.kids[d].repr)
      invariant forall d | 0 <= d < |n.kids| ::
                  n.kids[d].data == if d < c then Cleared(n.kids[d].shape, old(n.kids[d].data)) else old(n.kids[d].data)
    {
      var kid := n.kids[c];
      KidInRepr(n, c);
      match kid.shape {
        case Bin =>
          kid.data := seq(|kid.data|, _ => NO_BUFFER);
        case Str(num) =>
          if kid.data != [] {
            kid.data := kid.data[0 := Strs(seq(num, _ => None))];
          }
        case Ary(_) =>
          EmptyArrays(kid);
        case _ =>
      }
      c := c + 1;
    }
  }

  lemma ListEmpty(n: TplNode, arrays: seq<TplNode>, o: Order)
    requires n.Wf() && n.shape.Ary? && ArraysOf(n, arrays)
    requires forall d | 0 <= d < |n.kids| && n.kids[d].shape.Ary? :: AllEmptied(n.kids[d].repr)
    ensures forall a | a in arrays :: PackedArray(a, o) && Emptied(a)
  {
    hide Emptied, ArraysOf;
    ListedInTree(n, arrays);
    forall a | a in arrays
      ensures PackedArray(a, o) && Emptied(a)
    {
      var d :| 0 <= d < |n.kids| && a in n.kids[d].repr;
      KidInRepr(n, d);
      EmptyIsPacked(a, o);
    }
  }

  lemma EmptyIsPacked(a: TplNode, o: Order)
    requires a.Wf() && a.shape.Ary? && Emptied(a)
    ensures PackedArray(a, o)
  {
  }
}
