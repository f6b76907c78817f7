/** The same content on machines of different byte order. */
module TplMirror {
  import opened Bytes
  import opened Sequences
  import opened TplWords
  import opened TplFormat
  import opened TplCodec
  import opened TplNodes
  import opened TplPack
  import opened TplImage

  /** The same numbers as a machine of the other byte order holds them. */
  ghost function MirrorCell(s: Shape, cell: Cell): (r: Cell)
    requires WfShape(s) && TypedCell(s, cell)
    decreases s, 0, 0
  {
    match s
    case Atom(sz, num) => Raw(ReverseEach(cell.bs, sz))
    case Ary(kids) => Arr(MirrorRecs(kids, cell.recs))
    case _ => cell
  }

  ghost function MirrorRec(ns: seq<Shape>, w: seq<(nat, nat)>, rec: Record): (r: Record)
    requires WfKids(ns) && WalkOk(ns, w) && TypedRec(ns, w, rec)
    ensures |r| == |rec|
    decreases ns, 0, |w|
  {
    if w == [] then [] else [MirrorCell(ns[w[0].0], rec[0])] + MirrorRec(ns, w[1..], rec[1..])
  }

  ghost function MirrorRecs(ns: seq<Shape>, recs: seq<Record>): (r: seq<Record>)
    requires WfKids(ns) && TypedRecs(ns, recs)
    ensures |r| == |recs|
    decreases ns, 1, |recs|
  {
    if recs == [] then []
    else
      WalkIsOk(ns);
      [MirrorRec(ns, Walk(ns), recs[0])] + MirrorRecs(ns, recs[1..])
  }

  /** What one machine writes is what the other one would write, swapping, for the mirrored values. */
  lemma {:induction false} MirrorCellSame(s: Shape, cell: Cell, big: bool)
    requires WfShape(s) && TypedCell(s, cell)
    ensures var m := MirrorCell(s, cell);
            TypedCell(s, m) && EncCell(s, m, Order(!big, true)) == EncCell(s, cell, Order(big, false))
    decreases s, 0, 0
  {
    hide PutU32;
    match s
    case Atom(sz, num) => ReverseEachTwice(cell.bs, sz);
    case Ary(kids) => MirrorRecsSame(kids, cell.recs, big);
    case _ =>
  }

  lemma {:induction false} MirrorRecSame(ns: seq<Shape>, w: seq<(nat, nat)>, rec: Record, big: bool)
    requires WfKids(ns) && WalkOk(ns, w) && TypedRec(ns, w, rec)
    ensures var m := MirrorRec(ns, w, rec);
            TypedRec(ns, w, m) && EncRec(ns, w, m, Order(!big, true)) == EncRec(ns, w, rec, Order(big, false))
    decreases ns, 0, |w|
  {
    hide EncCell, TypedCell, MirrorCell;
    if w != [] {
      MirrorCellSame(ns[w[0].0], rec[0], big);
      MirrorRecSame(ns, w[1..], rec[1..], big);
      assert MirrorRec(ns, w, rec)[1..] == MirrorRec(ns, w[1..], rec[1..]);
    }
  }

  lemma {:induction false} MirrorRecsSame(ns: seq<Shape>, recs: seq<Record>, big: bool)
    requires WfKids(ns) && TypedRecs(ns, recs)
    ensures var m := MirrorRecs(ns, recs);
            TypedRecs(ns, m) && EncRecs(ns, m, Order(!big, true)) == EncRecs(ns, recs, Order(big, false))
    decreases ns, 1, |recs|
  {
    hide EncRec, TypedRec, MirrorRec, Walk, WalkOk;
    if recs != [] {
      WalkIsOk(ns);
      MirrorRecSame(ns, Walk(ns), recs[0], big);
      MirrorRecsSame(ns, recs[1..], big);
      assert MirrorRecs(ns, recs)[1..] == MirrorRecs(ns, recs[1..]);
    }
  }

  /** Going back and forth gives the same numbers again. */
  lemma {:induction false} MirrorCellTwice(s: Shape, cell: Cell)
    requires WfShape(s) && TypedCell(s, cell)
    ensures TypedCell(s, MirrorCell(s, cell)) && MirrorCell(s, MirrorCell(s, cell)) == cell
    decreases s, 0, 0
  {
    MirrorCellSame(s, cell, false);
    match s
    case Atom(sz, num) => ReverseEachTwice(cell.bs, sz);
    case Ary(kids) => MirrorRecsTwice(kids, cell.recs);
    case _ =>
  }

  lemma {:induction false} MirrorRecTwice(ns: seq<Shape>, w: seq<(nat, nat)>, rec: Record)
    requires WfKids(ns) && WalkOk(ns, w) && TypedRec(ns, w, rec)
    ensures TypedRec(ns, w, MirrorRec(ns, w, rec)) && MirrorRec(ns, w, MirrorRec(ns, w, rec)) == rec
    decreases ns, 0, |w|
  {
    hide TypedCell, MirrorCell;
    MirrorRecSame(ns, w, rec, false);
    if w != [] {
      MirrorCellTwice(ns[w[0].0], rec[0]);
      MirrorRecTwice(ns, w[1..], rec[1..]);
      assert MirrorRec(ns, w, rec)[1..] == MirrorRec(ns, w[1..], rec[1..]);
    }
  }

  lemma {:induction false} MirrorRecsTwice(ns: seq<Shape>, recs: seq<Record>)
    requires WfKids(ns) && TypedRecs(ns, recs)
    ensures TypedRecs(ns, MirrorRecs(ns, recs)) && MirrorRecs(ns, MirrorRecs(ns, recs)) == recs
    decreases ns, 1, |recs|
  {
    hide TypedRec, MirrorRec, Walk, WalkOk;
    MirrorRecsSame(ns, recs, false);
    if recs != [] {
      WalkIsOk(ns);
      MirrorRecTwice(ns, Walk(ns), recs[0]);
      MirrorRecsTwice(ns, recs[1..]);
      assert MirrorRecs(ns, recs)[1..] == MirrorRecs(ns, recs[1..]);
    }
  }

  // ------------------------------------------------------------------ whole images

  /** The slots of a level as the other kind of machine holds them. */
  ghost function MirrorSlots(ns: seq<Shape>, full: Slots): (r: Slots)
    requires WfKids(ns) && SlotsOk(ns, full)
    ensures |r| == |ns|
  {
    seq(|ns|, c requires 0 <= c < |ns| =>
      seq(|full[c]|, k requires 0 <= k < |full[c]| => MirrorCell(ns[c], full[c][k])))
  }

  lemma MirrorSlotsOk(ns: seq<Shape>, full: Slots)
    requires WfKids(ns) && SlotsOk(ns, full)
    ensures SlotsOk(ns, MirrorSlots(ns, full)) && MirrorSlots(ns, MirrorSlots(ns, full)) == full
  {
    hide TypedCell, MirrorCell, SlotCount;
    forall c, k | 0 <= c < |ns| && 0 <= k < |full[c]|
      ensures TypedCell(ns[c], MirrorCell(ns[c], full[c][k]))
      ensures MirrorCell(ns[c], MirrorCell(ns[c], full[c][k])) == full[c][k]
    {
      MirrorCellTwice(ns[c], full[c][k]);
    }
    var m := MirrorSlots(ns, full);
    forall c | 0 <= c < |ns|
      ensures MirrorSlots(ns, m)[c] == full[c]
    {
    }
  }

  lemma {:induction false} MirrorPick(ns: seq<Shape>, w: seq<(nat, nat)>, full: Slots)
    requires WfKids(ns) && WalkOk(ns, w) && SlotsOk(ns, full) && InSlots(w, full)
    ensures InSlots(w, MirrorSlots(ns, full)) && TypedRec(ns, w, Pick(w, full))
    ensures Pick(w, MirrorSlots(ns, full)) == MirrorRec(ns, w, Pick(w, full))
    decreases |w|
  {
    hide TypedCell, MirrorCell, SlotCount, TypedRec;
    PickTyped(ns, w, full);
    if w != [] {
      MirrorPick(ns, w[1..], full);
      assert Pick(w, full)[1..] == Pick(w[1..], full);
    }
  }

  /** The other machine, swapping, would write these very bytes for its own form of the content. */
  lemma MirrorRest(ns: seq<Shape>, full: Slots, big: bool)
    requires WfKids(ns) && InWalk(ns, 0, 0) && SlotsOk(ns, full)
    ensures SlotsOk(ns, MirrorSlots(ns, full))
    ensures EncRest(ns, 0, 0, MirrorSlots(ns, full), Order(!big, true)) == EncRest(ns, 0, 0, full, Order(big, false))
  {
    hide SlotsOk, MirrorSlots, EncRec, MirrorRec, Rest, WalkOk, TypedRec;
    var w := Rest(ns, 0, 0);
    MirrorSlotsOk(ns, full);
    RestInSlots(ns, 0, 0, full);
    RestIsOk(ns, 0, 0);
    MirrorPick(ns, w, full);
    MirrorRecSame(ns, w, Pick(w, full), big);
  }

  /** So the image one machine writes is, for the other one, the image of the mirrored content. */
  lemma MirrorImage(f: Fmt, full: Slots, big: bool)
    requires WfFmt(f) && SlotsOk(Kids(f), full) && ImageSize(f, full, Order(big, false)) < TWO_32
    ensures SlotsOk(Kids(f), MirrorSlots(Kids(f), full))
    ensures var o, m := Order(!big, true), MirrorSlots(Kids(f), full);
            ImageSize(f, m, o) < TWO_32 && Image(f, m, o) == Image(f, full, Order(big, false))
  {
    hide SlotsOk, MirrorSlots, EncRest, Preamble;
    MirrorRest(Kids(f), full, big);
  }

  /** Content written on one machine, as the one that reads it holds it. */
  ghost function Seen(ns: seq<Shape>, full: Slots, big: bool, reader: bool): Slots
    requires WfKids(ns) && SlotsOk(ns, full)
  {
    if reader == big then full else MirrorSlots(ns, full)
  }

  /** An image is accepted on either kind of machine, and holds the content as that machine sees it. */
  lemma ImageIsSeen(f: Fmt, full: Slots, big: bool, reader: bool)
    requires WfFmt(f) && SlotsOk(Kids(f), full) && ImageSize(f, full, Order(big, false)) < TWO_32
    ensures var img := Image(f, full, Order(big, false));
            && Accepted(f, img, reader, false) && SmallCounts(f, img, reader) && DataStart(f) <= |img|
            && Content(f, img, reader) == Seen(Kids(f), full, big, reader)
  {
    hide SlotsOk, MirrorSlots, Image, ImageSize, Content, Accepted, SmallCounts;
    if reader == big {
      ImageIsAccepted(f, full, Order(big, false));
      AcceptedReadsToEnd(f, Image(f, full, Order(big, false)), big, false, Signed);
    } else {
      MirrorImage(f, full, big);
      ImageIsAccepted(f, MirrorSlots(Kids(f), full), Order(!big, true));
      AcceptedReadsToEnd(f, Image(f, full, Order(big, false)), !big, false, Signed);
    }
  }

  // ------------------------------------------------------------------ content without numbers of several bytes

  /** Atoms of one byte each, strings and buffers: nothing that a machine's byte order could change. */
  ghost predicate Bytewise(s: Shape)
    decreases s
  {
    match s
    case Atom(sz, _) => sz == 1
    case Ary(kids) => forall k | k in kids :: Bytewise(k)
    case _ => true
  }

  /** The order of the same image on the other kind of machine. */
  function Across(o: Order): Order {
    Order(!o.big, !o.swap)
  }

  lemma {:induction false} ReverseBytes(s: bytes)
    ensures ReverseEach(s, 1) == s
  {
    if s != [] {
      ReverseBytes(s[1..]);
      assert Reversed(s[..1]) == s[..1];
    }
  }

  /** Both kinds of machine read the same values. */
  lemma {:induction false} ParseAcross(s: Shape, text: bytes, pos: nat, o: Order, mode: CountMode)
    requires WfShape(s) && Bytewise(s)
    ensures ParseCell(s, text, pos, Across(o), mode) == ParseCell(s, text, pos, o, mode)
    decreases s, 0, 0
  {
    hide GetU32, ParseRecs, ParseStrs, ReverseEach;
    match s
    case Atom(sz, num) =>
      if pos + sz * num <= |text| {
        ReverseBytes(text[pos..pos + sz * num]);
      }
    case Ary(kids) =>
      if pos + 4 <= |text| {
        var n := GetU32(text[pos..pos + 4], o.ImageBig());
        ParseRecsAcross(kids, if n >= TWO_31 && mode == Signed then 0 else n, text, pos + 4, o, mode);
      }
    case _ =>
  }

  lemma {:induction false} ParseRecAcross(ns: seq<Shape>, w: seq<(nat, nat)>, text: bytes, pos: nat, o: Order,
                                          mode: CountMode)
    requires WfKids(ns) && WalkOk(ns, w) && forall k | k in ns :: Bytewise(k)
    ensures ParseRec(ns, w, text, pos, Across(o), mode) == ParseRec(ns, w, text, pos, o, mode)
    decreases ns, 0, |w|
  {
    hide ParseCell, Bytewise;
    if w != [] {
      var r := ParseCell(ns[w[0].0], text, pos, o, mode);
      ParseAcross(ns[w[0].0], text, pos, o, mode);
      if r.Got? {
        ParseRecAcross(ns, w[1..], text, r.pos, o, mode);
      }
    }
  }

  lemma {:induction false} ParseRecsAcross(ns: seq<Shape>, n: nat, text: bytes, pos: nat, o: Order, mode: CountMode)
    requires WfKids(ns) && forall k | k in ns :: Bytewise(k)
    ensures ParseRecs(ns, n, text, pos, Across(o), mode) == ParseRecs(ns, n, text, pos, o, mode)
    decreases ns, 1, n
  {
    hide ParseRec, Bytewise, Walk, WalkOk;
    if n > 0 {
      WalkIsOk(ns);
      var r := ParseRec(ns, Walk(ns), text, pos, o, mode);
      ParseRecAcross(ns, Walk(ns), text, pos, o, mode);
      if r.Got? {
        ParseRecsAcross(ns, n - 1, text, r.pos, o, mode);
      }
    }
  }

  /** Such an image is accepted on both kinds of machine or on none, and holds the same content on both. */
  lemma ImageAcross(f: Fmt, img: bytes, big: bool, excess: bool)
    requires WfFmt(f) && |img| >= MINSIZE && forall k | k in Kids(f) :: Bytewise(k)
    ensures Accepted(f, img, !big, excess) <==> Accepted(f, img, big, excess)
    ensures SmallCounts(f, img, !big) <==> SmallCounts(f, img, big)
    ensures SmallCounts(f, img, big) && DataStart(f) <= |img| ==> Content(f, img, !big) == Content(f, img, big)
  {
    hide Bytewise, ParseRec, Rest, GetU32, PutU32, FxBytes, SlotsOk;
    var o, w := OrderOf(img, big), Rest(Kids(f), 0, 0);
    assert OrderOf(img, !big) == Across(o);
    RestIsOk(Kids(f), 0, 0);
    ParseRecAcross(Kids(f), w, img, DataStart(f), o, Signed);
    ParseRecAcross(Kids(f), w, img, DataStart(f), o, Strict);
  }
}
