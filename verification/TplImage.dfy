/** Whole images: preamble and content, which buffers are accepted, and what an accepted buffer holds. */
module TplImage {
  import opened Sequences
  import opened Bytes
  import opened TplWords
  import opened TplFormat
  import opened TplCodec
  import opened TplOrder
  import opened TplNodes
  import opened TplPack
  import opened TplUnpack

  const MAGIC: bytes := [116, 112, 108]
  const MINSIZE: nat := 9
  const FL_BIGENDIAN: nat := 1
  const FL_NULLSTRINGS: nat := 2
  const OCTOTHORPE: byte := 35
  const LETTER_S: byte := 115
  /** The characters A S ( $ ) B i u c s f I U j v and # of a format string. */
  const FMT_CHARS: set<byte> := {65, 83, 40, 36, 41, 66, 105, 117, 99, 115, 102, 73, 85, 106, 118, 35}

  /** A format as tpl_map holds it: its text, the lengths given for its `#`s, and its node tree. */
  datatype Fmt = Fmt(text: bytes, fxlens: seq<nat>, root: Shape)

  predicate UsesStrings(s: Shape) {
    match s
    case Str(_) => true
    case Ary(kids) => exists k | k in kids :: UsesStrings(k)
    case _ => false
  }

  function Octothorpes(text: bytes): nat {
    if text == [] then 0 else (if text[0] == OCTOTHORPE then 1 else 0) + Octothorpes(text[1..])
  }

  ghost predicate WfFmt(f: Fmt) {
    && f.root.Ary? && WfShape(f.root)
    && (forall c | c in f.text :: c in FMT_CHARS)
    && Octothorpes(f.text) == |f.fxlens|
    && (forall i | 0 <= i < |f.fxlens| :: 0 < f.fxlens[i] < TWO_31)
    && (UsesStrings(f.root) ==> LETTER_S in f.text)
  }

  ghost function Kids(f: Fmt): (ns: seq<Shape>)
    requires WfFmt(f)
    ensures WfKids(ns) && InWalk(ns, 0, 0)
  {
    f.root.kids
  }

  function FxBytes(fx: seq<nat>, big: bool): (r: bytes)
    requires forall i | 0 <= i < |fx| :: fx[i] < TWO_31
    ensures |r| == 4 * |fx|
  {
    if fx == [] then [] else PutU32(fx[0], big) + FxBytes(fx[1..], big)
  }

  function FlagsOf(text: bytes, big: bool): byte {
    (if big then FL_BIGENDIAN else 0) + (if LETTER_S in text then FL_NULLSTRINGS else 0)
  }

  /** Where the data of an image of this format starts. */
  function DataStart(f: Fmt): nat {
    8 + |f.text| + 1 + 4 * |f.fxlens|
  }

  ghost function Preamble(f: Fmt, total: nat, big: bool): (r: bytes)
    requires WfFmt(f) && total < TWO_32
    ensures |r| == DataStart(f)
  {
    MAGIC + [FlagsOf(f.text, big)] + PutU32(total, big) + (f.text + [0]) + FxBytes(f.fxlens, big)
  }

  ghost function ImageSize(f: Fmt, full: Slots, o: Order): nat
    requires WfFmt(f) && SlotsOk(Kids(f), full)
  {
    DataStart(f) + |EncRest(Kids(f), 0, 0, full, o)|
  }

  /** The image a machine writes for the given content. */
  ghost function Image(f: Fmt, full: Slots, o: Order): (r: bytes)
    requires WfFmt(f) && SlotsOk(Kids(f), full) && ImageSize(f, full, o) < TWO_32
    ensures |r| == ImageSize(f, full, o)
  {
    Preamble(f, ImageSize(f, full, o), o.ImageBig()) + EncRest(Kids(f), 0, 0, full, o)
  }

  /** Byte order of the image relative to the machine that reads it. */
  function OrderOf(img: bytes, big: bool): Order
    requires |img| > 3
  {
    Order(big, (img[3] % 2 == 1) != big)
  }

  ghost predicate PreambleOk(f: Fmt, img: bytes, o: Order)
    requires WfFmt(f)
  {
    && |img| >= MINSIZE && img[..3] == MAGIC && img[3] < 4
    && Holds(img, 8, f.text + [0])
    && Holds(img, 8 + |f.text| + 1, FxBytes(f.fxlens, o.ImageBig()))
  }

  /** The checks of tpl_sanity with numbers read in this order. */
  ghost predicate AcceptedIn(f: Fmt, img: bytes, o: Order, excess: bool)
    requires WfFmt(f)
  {
    && PreambleOk(f, img, o)
    && (excess || GetU32(img[4..8], o.ImageBig()) == |img|)
    && var r := ParseRest(Kids(f), 0, 0, img, DataStart(f), o, Signed);
       r.Got? && (if excess then r.pos <= |img| else r.pos == |img|)
  }

  /** The buffers tpl_sanity accepts; with `excess` it may be longer than the image it starts with. */
  ghost predicate Accepted(f: Fmt, img: bytes, big: bool, excess: bool)
    requires WfFmt(f)
  {
    |img| >= MINSIZE && AcceptedIn(f, img, OrderOf(img, big), excess)
  }

  /** Every array count in the image is below 2^31. */
  ghost predicate SmallCounts(f: Fmt, img: bytes, big: bool)
    requires WfFmt(f) && |img| >= MINSIZE
  {
    ParseRest(Kids(f), 0, 0, img, DataStart(f), OrderOf(img, big), Strict).Got?
  }

  /** What a checked image holds. */
  ghost function Content(f: Fmt, img: bytes, big: bool): (full: Slots)
    requires WfFmt(f) && |img| >= MINSIZE && SmallCounts(f, img, big) && DataStart(f) <= |img|
    ensures SlotsOk(Kids(f), full)
    ensures ParseRest(Kids(f), 0, 0, img, DataStart(f), OrderOf(img, big), Strict).val == PickRest(Kids(f), 0, 0, full)
  {
    var o := OrderOf(img, big);
    WalkIsOk(Kids(f));
    EncOfParseRec(Kids(f), Walk(Kids(f)), img, DataStart(f), o);
    var rec := ParseRest(Kids(f), 0, 0, img, DataStart(f), o, Strict).val;
    SlotsOfTyped(Kids(f), rec);
    SlotsOf(Kids(f), rec)
  }

  lemma PreambleParts(f: Fmt, total: nat, big: bool, img: bytes, o: Order)
    requires WfFmt(f) && total < TWO_32 && Holds(img, 0, Preamble(f, total, big)) && |img| >= MINSIZE
    requires o.ImageBig() == big
    ensures PreambleOk(f, img, o) && img[3] == FlagsOf(f.text, big) && (img[3] % 2 == 1 <==> big)
    ensures img[4..8] == PutU32(total, big)
  {
    hide PutU32, FxBytes;
    var head := MAGIC + [FlagsOf(f.text, big)] + PutU32(total, big);
    HoldsSplit(img, 0, head + (f.text + [0]), FxBytes(f.fxlens, big));
    HoldsSplit(img, 0, head, f.text + [0]);
    HoldsSplit(img, 0, MAGIC + [FlagsOf(f.text, big)], PutU32(total, big));
    HoldsSplit(img, 0, MAGIC, [FlagsOf(f.text, big)]);
    assert img[3..4] == [FlagsOf(f.text, big)];
    assert img[0..3] == img[..3];
  }

  /** The bytes of an image in front of its data. */
  lemma ImageBytes(f: Fmt, full: Slots, big: bool)
    requires WfFmt(f) && SlotsOk(Kids(f), full) && ImageSize(f, full, Order(big, false)) < TWO_32
    ensures var img, t := Image(f, full, Order(big, false)), |f.text|;
            && |img| >= 9 + t + 4 * |f.fxlens| && img[..3] == [116, 112, 108]
            && img[3] == (if big then 1 else 0) + (if 115 in f.text then 2 else 0)
            && img[4..8] == PutU32(|img|, big) && img[8..8 + t] == f.text && img[8 + t] == 0
            && (forall i | 0 <= i < |f.fxlens| ::
                  f.fxlens[i] < TWO_32 && img[9 + t + 4 * i..9 + t + 4 * i + 4] == PutU32(f.fxlens[i], big))
            && img[9 + t + 4 * |f.fxlens|..] == EncRest(Kids(f), 0, 0, full, Order(big, false))
  {
    hide PutU32, FxBytes, EncRest, SlotsOk;
    var o, t := Order(big, false), |f.text|;
    var img, fx := Image(f, full, o), FxBytes(f.fxlens, big);
    var size, body := PutU32(|img|, big), EncRest(Kids(f), 0, 0, full, o);
    Slices(img, MAGIC, FlagsOf(f.text, big), size, f.text, fx, body);
    forall i | 0 <= i < |f.fxlens|
      ensures f.fxlens[i] < TWO_32 && img[9 + t + 4 * i..9 + t + 4 * i + 4] == PutU32(f.fxlens[i], big)
    {
      FxBytesAt(f.fxlens, big, i);
      SliceOfSlice(img, 9 + t, 4 * i, 4 * i + 4, 9 + t + |fx|);
    }
  }

  lemma Slices(img: bytes, magic: bytes, flags: byte, size: bytes, text: bytes, fx: bytes, body: bytes)
    requires |magic| == 3 && |size| == 4 && img == magic + [flags] + size + (text + [0]) + fx + body
    ensures var t := |text|;
            && |img| == 9 + t + |fx| + |body| && img[..3] == magic && img[3] == flags && img[4..8] == size
            && img[8..8 + t] == text && img[8 + t] == 0 && img[9 + t..9 + t + |fx|] == fx
            && img[9 + t + |fx|..] == body
  {
  }

  lemma SliceOfSlice(s: bytes, p: nat, a: nat, b: nat, q: nat)
    requires a <= b && p + b <= q <= |s|
    ensures s[p..q][a..b] == s[p + a..p + b]
  {
    var x, y := s[p..q][a..b], s[p + a..p + b];
    assert |x| == |y| && forall i | 0 <= i < |x| :: x[i] == y[i];
  }

  lemma {:induction false} FxBytesAt(fx: seq<nat>, big: bool, i: nat)
    requires (forall k | 0 <= k < |fx| :: fx[k] < TWO_31) && i < |fx|
    ensures FxBytes(fx, big)[4 * i..4 * i + 4] == PutU32(fx[i], big)
    decreases i
  {
    hide PutU32;
    if i > 0 {
      FxBytesAt(fx[1..], big, i - 1);
      var w, rest := PutU32(fx[0], big), FxBytes(fx[1..], big);
      assert (w + rest)[4 * i..4 * i + 4] == rest[4 * (i - 1)..4 * (i - 1) + 4];
    }
  }

  /** The characters of formats. */
  lemma FormatCharacters(c: byte)
    ensures c in FMT_CHARS <==> c as int as char in "AS($)BiucsfIUjv#"
  {
  }

  /** Every image that is written is accepted, on machines of either byte order, and holds what was packed. */
  lemma ImageIsAccepted(f: Fmt, full: Slots, o: Order)
    requires WfFmt(f) && SlotsOk(Kids(f), full) && ImageSize(f, full, o) < TWO_32
    ensures var img := Image(f, full, o);
            && Accepted(f, img, o.big, false) && OrderOf(img, o.big) == o
            && SmallCounts(f, img, o.big) && Content(f, img, o.big) == full
  {
    hide Preamble, PutU32, GetU32, FxBytes, SlotsOk, Rest, Walk, Content;
    var ns := Kids(f);
    var img := Image(f, full, o);
    var total := ImageSize(f, full, o);
    var body := EncRest(ns, 0, 0, full, o);
    assert Holds(img, 0, Preamble(f, total, o.ImageBig()));
    PreambleParts(f, total, o.ImageBig(), img, o);
    assert OrderOf(img, o.big) == o;
    U32Inverse(total, img[4..8], o.ImageBig());
    assert Holds(img, DataStart(f), body);
    BodyParses(ns, full, img, DataStart(f), o);
    PickIsInjective(ns, full, Content(f, img, o.big));
  }

  lemma BodyParses(ns: seq<Shape>, full: Slots, img: bytes, pos: nat, o: Order)
    requires WfKids(ns) && InWalk(ns, 0, 0) && SlotsOk(ns, full) && Holds(img, pos, EncRest(ns, 0, 0, full, o))
    ensures forall mode :: ParseRest(ns, 0, 0, img, pos, o, mode) ==
              Got(PickRest(ns, 0, 0, full), pos + |EncRest(ns, 0, 0, full, o)|)
  {
    RestInSlots(ns, 0, 0, full);
    RestIsOk(ns, 0, 0);
    var w := Rest(ns, 0, 0);
    PickTyped(ns, w, full);
    forall mode
      ensures ParseRest(ns, 0, 0, img, pos, o, mode) ==
                Got(PickRest(ns, 0, 0, full), pos + |EncRest(ns, 0, 0, full, o)|)
    {
      ParseOfEncRec(ns, w, Pick(w, full), img, pos, o, mode);
    }
  }

  // ------------------------------------------------------------------ theorems about accepted images

  /** An accepted image without huge counts is read to its very end, whatever way counts are taken. */
  lemma AcceptedReadsToEnd(f: Fmt, img: bytes, big: bool, excess: bool, mode: CountMode)
    requires WfFmt(f) && Accepted(f, img, big, excess) && SmallCounts(f, img, big)
    ensures DataStart(f) <= |img|
    ensures var o := OrderOf(img, big);
            var r := ParseRest(Kids(f), 0, 0, img, DataStart(f), o, mode);
            && r == ParseRest(Kids(f), 0, 0, img, DataStart(f), o, Strict)
            && r.Got? && (if excess then r.pos <= |img| else r.pos == |img|)
  {
    hide Rest, ParseRec;
    WalkIsOk(Kids(f));
    var o := OrderOf(img, big);
    StrictRecIsAny(Kids(f), Walk(Kids(f)), img, DataStart(f), o, mode);
    StrictRecIsAny(Kids(f), Walk(Kids(f)), img, DataStart(f), o, Signed);
  }

  /** Without huge counts nothing else is accepted: such a buffer is the image of its content, but for the
      string-format flag. */
  lemma AcceptedIsImage(f: Fmt, img: bytes, big: bool)
    requires WfFmt(f) && Accepted(f, img, big, false) && SmallCounts(f, img, big) && |img| < TWO_32
    requires img[3] / 2 % 2 == 1 <==> LETTER_S in f.text
    ensures var o := OrderOf(img, big);
            var full := Content(f, img, big);
            ImageSize(f, full, o) == |img| && img == Image(f, full, o)
  {
    hide PutU32, GetU32, FxBytes, SlotsOk, Rest, Walk, ParseRec, EncRec, Content;
    AcceptedReadsToEnd(f, img, big, false, Signed);
    var o := OrderOf(img, big);
    var full := Content(f, img, big);
    BodyIsEncoding(f, img, big);
    PreambleRebuilt(f, img, big, o);
    assert img == img[..DataStart(f)] + img[DataStart(f)..];
  }

  /**
   The buffer is an image of this content, byte by byte: any flags that are known, the format, its lengths and
   the data. With `excess` the size word is not looked at, and more bytes may follow.
   */
  ghost predicate IsImageOf(f: Fmt, img: bytes, big: bool, excess: bool, full: Slots)
    requires WfFmt(f) && |img| < TWO_32
  {
    var t, d := |f.text|, 9 + |f.text| + 4 * |f.fxlens|;
    && d <= |img| && img[..3] == [116, 112, 108] && img[3] < 4 && img[8..8 + t] == f.text && img[8 + t] == 0
    && LengthsStand(f.fxlens, img, 9 + t, img[3] % 2 == 1)
    && (excess || img[4..8] == PutU32(|img|, img[3] % 2 == 1))
    && SlotsOk(Kids(f), full)
    && var body := EncRest(Kids(f), 0, 0, full, Order(big, (img[3] % 2 == 1) != big));
       Holds(img, d, body) && (!excess ==> d + |body| == |img|)
  }

  ghost predicate LengthsStand(fx: seq<nat>, img: bytes, pos: nat, big: bool) {
    && pos + 4 * |fx| <= |img|
    && forall i | 0 <= i < |fx| :: fx[i] < TWO_32 && img[pos + 4 * i..pos + 4 * i + 4] == PutU32(fx[i], big)
  }

  /** Counts of 2^31 or more aside, exactly the buffers that hold some content are accepted. */
  lemma AcceptedIff(f: Fmt, img: bytes, big: bool, excess: bool)
    requires WfFmt(f) && |img| < TWO_32
    ensures Accepted(f, img, big, excess) && SmallCounts(f, img, big) <==>
            exists full :: IsImageOf(f, img, big, excess, full)
    ensures forall full | IsImageOf(f, img, big, excess, full) ::
              SmallCounts(f, img, big) && DataStart(f) <= |img| && Content(f, img, big) == full
  {
    hide IsImageOf, AcceptedIn, SmallCounts, Content;
    if Accepted(f, img, big, excess) && SmallCounts(f, img, big) {
      AcceptedReadsToEnd(f, img, big, excess, Signed);
      AcceptedIsImageOf(f, img, big, excess);
    }
    forall full | IsImageOf(f, img, big, excess, full)
      ensures Accepted(f, img, big, excess) && SmallCounts(f, img, big)
      ensures DataStart(f) <= |img| && Content(f, img, big) == full
    {
      ImageOfIsAccepted(f, img, big, excess, full);
    }
  }

  lemma AcceptedIsImageOf(f: Fmt, img: bytes, big: bool, excess: bool)
    requires WfFmt(f) && |img| < TWO_32 && Accepted(f, img, big, excess) && SmallCounts(f, img, big)
    requires DataStart(f) <= |img|
    ensures IsImageOf(f, img, big, excess, Content(f, img, big))
  {
    hide PutU32, GetU32, FxBytes, SlotsOk, Rest, Walk, ParseRec, EncRec, Content;
    AcceptedReadsToEnd(f, img, big, excess, Signed);
    BodyIsEncoding(f, img, big);
    var t, b := |f.text|, img[3] % 2 == 1;
    U32Inverse(|img|, img[4..8], b);
    assert img[8..8 + t] == img[8..8 + t + 1][..t] && img[8 + t] == img[8..8 + t + 1][t];
    LengthsIff(f.fxlens, img, 9 + t, b);
  }

  lemma ImageOfIsAccepted(f: Fmt, img: bytes, big: bool, excess: bool, full: Slots)
    requires WfFmt(f) && |img| < TWO_32 && IsImageOf(f, img, big, excess, full)
    ensures Accepted(f, img, big, excess) && SmallCounts(f, img, big)
    ensures DataStart(f) <= |img| && Content(f, img, big) == full
  {
    hide PutU32, GetU32, FxBytes, SlotsOk, Rest, Walk, ParseRec, EncRec, EncRest, Content;
    var t, b := |f.text|, img[3] % 2 == 1;
    U32Inverse(|img|, img[4..8], b);
    assert img[8..8 + t + 1] == f.text + [0];
    LengthsIff(f.fxlens, img, 9 + t, b);
    BodyParses(Kids(f), full, img, DataStart(f), OrderOf(img, big));
    PickIsInjective(Kids(f), full, Content(f, img, big));
  }

  lemma {:induction false} LengthsIff(fx: seq<nat>, img: bytes, pos: nat, big: bool)
    requires forall i | 0 <= i < |fx| :: fx[i] < TWO_31
    ensures LengthsStand(fx, img, pos, big) <==> Holds(img, pos, FxBytes(fx, big))
    decreases |fx|
  {
    hide PutU32;
    if fx != [] {
      LengthsStep(fx, img, pos, big);
      hide LengthsStand, Holds;
      LengthsIff(fx[1..], img, pos + 4, big);
      HoldsSplit(img, pos, PutU32(fx[0], big), FxBytes(fx[1..], big));
    }
  }

  lemma LengthsStep(fx: seq<nat>, img: bytes, pos: nat, big: bool)
    requires fx != [] && forall i | 0 <= i < |fx| :: fx[i] < TWO_31
    ensures LengthsStand(fx, img, pos, big) <==>
            Holds(img, pos, PutU32(fx[0], big)) && LengthsStand(fx[1..], img, pos + 4, big)
  {
    hide PutU32;
    var rest := fx[1..];
    if LengthsStand(fx, img, pos, big) {
      assert img[pos + 4 * 0..pos + 4 * 0 + 4] == PutU32(fx[0], big);
      forall i | 0 <= i < |rest|
        ensures img[pos + 4 + 4 * i..pos + 4 + 4 * i + 4] == PutU32(rest[i], big)
      {
        assert img[pos + 4 * (i + 1)..pos + 4 * (i + 1) + 4] == PutU32(fx[i + 1], big);
      }
    }
    if Holds(img, pos, PutU32(fx[0], big)) && LengthsStand(rest, img, pos + 4, big) {
      forall i | 0 <= i < |fx|
        ensures img[pos + 4 * i..pos + 4 * i + 4] == PutU32(fx[i], big)
      {
        if i > 0 {
          assert img[pos + 4 + 4 * (i - 1)..pos + 4 + 4 * (i - 1) + 4] == PutU32(rest[i - 1], big);
        }
      }
    }
  }

  lemma BodyIsEncoding(f: Fmt, img: bytes, big: bool)
    requires WfFmt(f) && |img| >= MINSIZE && SmallCounts(f, img, big) && DataStart(f) <= |img|
    ensures var o := OrderOf(img, big);
            img[DataStart(f)..ParseRest(Kids(f), 0, 0, img, DataStart(f), o, Strict).pos]
            == EncRest(Kids(f), 0, 0, Content(f, img, big), o)
  {
    hide Content, SlotsOk;
    var o := OrderOf(img, big);
    var ns, full := Kids(f), Content(f, img, big);
    WalkIsOk(ns);
    EncOfParseRec(ns, Walk(ns), img, DataStart(f), o);
    RestInSlots(ns, 0, 0, full);
    RestIsOk(ns, 0, 0);
    PickTyped(ns, Walk(ns), full);
  }

  lemma PreambleRebuilt(f: Fmt, img: bytes, big: bool, o: Order)
    requires WfFmt(f) && |img| >= MINSIZE && DataStart(f) <= |img| < TWO_32 && PreambleOk(f, img, o) &&
             o == OrderOf(img, big)
    requires GetU32(img[4..8], o.ImageBig()) == |img|
    requires img[3] / 2 % 2 == 1 <==> LETTER_S in f.text
    ensures img[..DataStart(f)] == Preamble(f, |img|, o.ImageBig())
  {
    hide PutU32, GetU32, FxBytes;
    var b := o.ImageBig();
    U32Inverse(|img|, img[4..8], b);
    assert img[3] == FlagsOf(f.text, b);
    var t := 8 + |f.text| + 1;
    assert img[8..t] == f.text + [0] && img[t..DataStart(f)] == FxBytes(f.fxlens, b);
    assert img[..DataStart(f)] == img[..3] + [img[3]] + img[4..8] + img[8..t] + img[t..DataStart(f)];
  }

  /** The image with its endian flag flipped and every multi-byte number in it reversed. */
  ghost function FlipImage(f: Fmt, img: bytes, big: bool): bytes
    requires WfFmt(f) && Accepted(f, img, big, false) && SmallCounts(f, img, big) && DataStart(f) <= |img|
  {
    WalkIsOk(Kids(f));
    var t := 8 + |f.text| + 1;
    img[..3] + [if img[3] % 2 == 1 then img[3] - 1 else img[3] + 1] + Reversed(img[4..8]) + img[8..t] +
    ReverseEach(img[t..DataStart(f)], 4) +
    FlipRec(Kids(f), Walk(Kids(f)), img, DataStart(f), OrderOf(img, big))
  }

  lemma {:induction false} FlipFxBytes(fx: seq<nat>, big: bool)
    requires forall i | 0 <= i < |fx| :: fx[i] < TWO_31
    ensures ReverseEach(FxBytes(fx, big), 4) == FxBytes(fx, !big)
  {
    hide PutU32, Reversed;
    if fx != [] {
      var a, b := PutU32(fx[0], big), FxBytes(fx[1..], big);
      assert (a + b)[..4] == a && (a + b)[4..] == b;
      OtherOrder(fx[0], big);
      FlipFxBytes(fx[1..], big);
    }
  }

  /** The flipped image is the image the other kind of machine writes for the same content. */
  lemma FlipIsImage(f: Fmt, img: bytes, big: bool)
    requires WfFmt(f) && Accepted(f, img, big, false) && SmallCounts(f, img, big) && DataStart(f) <= |img| < TWO_32
    requires img[3] / 2 % 2 == 1 <==> LETTER_S in f.text
    ensures var full := Content(f, img, big);
            ImageSize(f, full, OrderOf(img, big).Flip()) < TWO_32 &&
            FlipImage(f, img, big) == Image(f, full, OrderOf(img, big).Flip())
  {
    hide PutU32, GetU32, FxBytes, SlotsOk, Rest, Walk, WalkOk, FlipRec, ParseRec, EncRec, Content, Reversed,
         ReverseEach, PreambleOk, Preamble;
    AcceptedReadsToEnd(f, img, big, false, Signed);
    WalkIsOk(Kids(f));
    FlipPreamble(f, img, big);
    FlipBody(f, img, big);
    var body := EncRest(Kids(f), 0, 0, Content(f, img, big), OrderOf(img, big).Flip());
    assert |body| == |img| - DataStart(f);
  }

  lemma FlipPreamble(f: Fmt, img: bytes, big: bool)
    requires WfFmt(f) && |img| >= MINSIZE && DataStart(f) <= |img| < TWO_32 && PreambleOk(f, img, OrderOf(img, big))
    requires GetU32(img[4..8], OrderOf(img, big).ImageBig()) == |img|
    requires img[3] / 2 % 2 == 1 <==> LETTER_S in f.text
    ensures var t := 8 + |f.text| + 1;
            img[..3] + [if img[3] % 2 == 1 then img[3] - 1 else img[3] + 1] + Reversed(img[4..8]) + img[8..t] +
            ReverseEach(img[t..DataStart(f)], 4) == Preamble(f, |img|, !OrderOf(img, big).ImageBig())
  {
    hide PutU32, GetU32, FxBytes, Reversed, ReverseEach;
    var b := OrderOf(img, big).ImageBig();
    U32Inverse(|img|, img[4..8], b);
    OtherOrder(|img|, b);
    FlipFxBytes(f.fxlens, b);
    var t := 8 + |f.text| + 1;
    assert img[8..t] == f.text + [0] && img[t..DataStart(f)] == FxBytes(f.fxlens, b);
    assert FlagsOf(f.text, !b) == if img[3] % 2 == 1 then img[3] - 1 else img[3] + 1;
  }

  /** The data part of the flipped image is the same content in the other byte order. */
  lemma FlipBody(f: Fmt, img: bytes, big: bool)
    requires WfFmt(f) && |img| >= MINSIZE && SmallCounts(f, img, big) && DataStart(f) <= |img| &&
             WalkOk(Kids(f), Walk(Kids(f)))
    ensures var o := OrderOf(img, big);
            var e := EncRest(Kids(f), 0, 0, Content(f, img, big), o.Flip());
            && FlipRec(Kids(f), Walk(Kids(f)), img, DataStart(f), o) == e
            && |e| == ParseRest(Kids(f), 0, 0, img, DataStart(f), o, Strict).pos - DataStart(f)
  {
    hide Content, SlotsOk;
    var o := OrderOf(img, big);
    var ns, full := Kids(f), Content(f, img, big);
    RestInSlots(ns, 0, 0, full);
    RestIsOk(ns, 0, 0);
    PickTyped(ns, Walk(ns), full);
    FlipRecIsOther(ns, Walk(ns), img, DataStart(f), o);
    BodyIsEncoding(f, img, big);
    SameSize(ns, Walk(ns), Pick(Walk(ns), full), o);
  }

  /**
   Cross-endian transparency: reversing every multi-byte number of an accepted image and flipping its
   endian flag gives an image that is accepted too, holds the same, and flips back to the first one.
   */
  lemma CrossEndian(f: Fmt, img: bytes, big: bool)
    requires WfFmt(f) && Accepted(f, img, big, false) && SmallCounts(f, img, big) && |img| < TWO_32
    requires img[3] / 2 % 2 == 1 <==> LETTER_S in f.text
    ensures DataStart(f) <= |img|
    ensures var img' := FlipImage(f, img, big);
            && |img'| == |img| && OrderOf(img', big) == OrderOf(img, big).Flip()
            && Accepted(f, img', big, false) && SmallCounts(f, img', big)
            && Content(f, img', big) == Content(f, img, big)
            && FlipImage(f, img', big) == img
  {
    hide Image, ImageSize, SlotsOk, Content, Accepted, SmallCounts, FlipImage, PreambleOk;
    AcceptedReadsToEnd(f, img, big, false, Signed);
    var o := OrderOf(img, big);
    var full := Content(f, img, big);
    var img' := FlipImage(f, img, big);
    FlipIsImage(f, img, big);
    AcceptedIsImage(f, img, big);
    ImageIsAccepted(f, full, o.Flip());
    AcceptedReadsToEnd(f, img', big, false, Signed);
    ImageFlags(f, full, o.Flip());
    FlipIsImage(f, img', big);
    assert o.Flip().Flip() == o;
    SameLength(f, full, o);
  }

  lemma ImageFlags(f: Fmt, full: Slots, o: Order)
    requires WfFmt(f) && SlotsOk(Kids(f), full) && ImageSize(f, full, o) < TWO_32
    ensures var img := Image(f, full, o);
            |img| == ImageSize(f, full, o) && |img| > 3 && (img[3] / 2 % 2 == 1 <==> LETTER_S in f.text)
  {
    hide PutU32, FxBytes, EncRest;
    var img := Image(f, full, o);
    assert img[3] == FlagsOf(f.text, o.ImageBig());
  }

  lemma SameLength(f: Fmt, full: Slots, o: Order)
    requires WfFmt(f) && SlotsOk(Kids(f), full)
    ensures ImageSize(f, full, o) == ImageSize(f, full, o.Flip())
  {
    hide SlotsOk, EncRec;
    var ns := Kids(f);
    RestInSlots(ns, 0, 0, full);
    RestIsOk(ns, 0, 0);
    PickTyped(ns, Walk(ns), full);
    SameSize(ns, Walk(ns), Pick(Walk(ns), full), o);
  }

  // ------------------------------------------------------------------ where the check falls short

  /** Unpacking everything, nested arrays to their ends, stays inside the image. */
  ghost predicate ReadsInside(f: Fmt, img: bytes, big: bool)
    requires WfFmt(f) && |img| >= MINSIZE
  {
    RestIsOk(Kids(f), 0, 0);
    RecInside(Kids(f), Rest(Kids(f), 0, 0), img, DataStart(f), OrderOf(img, big))
  }

  /**
   Validator and reader: an accepted image is read as it was checked exactly if all its array counts,
   nested ones included, are below 2^31. `Unsigned` stands for reading each array to its own end and going
   on there. The unpacker itself goes on where the size walker does; in images of at most 2^31 bytes it
   stays inside the buffer under just the same condition.
   */
  lemma AcceptedIsReadIff(f: Fmt, img: bytes, big: bool, excess: bool)
    requires WfFmt(f) && Accepted(f, img, big, excess)
    ensures DataStart(f) <= |img|
    ensures var o := OrderOf(img, big);
            var signed := ParseRest(Kids(f), 0, 0, img, DataStart(f), o, Signed);
            var unsigned := ParseRest(Kids(f), 0, 0, img, DataStart(f), o, Unsigned);
            && (SmallCounts(f, img, big) <==> unsigned == signed)
            && (|img| <= TWO_31 ==> (SmallCounts(f, img, big) <==> unsigned.Got?))
    ensures |img| <= TWO_31 ==> (SmallCounts(f, img, big) <==> ReadsInside(f, img, big))
  {
    hide ParseRec, Rest;
    WalkIsOk(Kids(f));
    if |img| <= TWO_31 {
      RecInsideIsStrict(Kids(f), Walk(Kids(f)), img, DataStart(f), OrderOf(img, big));
    }
    SignedExtentIsRightIff(Kids(f), Walk(Kids(f)), img, DataStart(f), OrderOf(img, big));
  }

  const CHARS := Fmt([65, 40, 99, 41], [], Ary([Ary([Atom(1, 1)])]))
  /** A complete image of A(c) whose count word is 2^31, with no elements behind it. */
  const HUGE_COUNT: bytes := [116, 112, 108, 0, 17, 0, 0, 0, 65, 40, 99, 41, 0, 0, 0, 0, 128]

  /**
   The size walker's signed count lets this image through, although the elements that the unpacker
   would read lie behind its end.
   */
  lemma HugeCountIsAccepted()
    ensures WfFmt(CHARS) && Accepted(CHARS, HUGE_COUNT, false, false) && !SmallCounts(CHARS, HUGE_COUNT, false)
    ensures !ReadsInside(CHARS, HUGE_COUNT, false)
    ensures ParseRest(Kids(CHARS), 0, 0, HUGE_COUNT, DataStart(CHARS), Order(false, false), Unsigned).Bad?
  {
    HugeCountPreamble();
    var ns := Kids(CHARS);
    assert ns == [Ary([Atom(1, 1)])];
    var o := Order(false, false);
    assert HUGE_COUNT[13..17] == [0, 0, 0, 128];
    assert GetU32(HUGE_COUNT[13..17], false) == TWO_31;
    SignedCountWraps([Atom(1, 1)], HUGE_COUNT, 13, o);
    ParseRestField(ns, 0, 0, HUGE_COUNT, 13, o, Signed);
    ParseRestEnds(ns, 0, HUGE_COUNT, 17, o, Signed);
    ParseRestField(ns, 0, 0, HUGE_COUNT, 13, o, Strict);
    AcceptedIsReadIff(CHARS, HUGE_COUNT, false, false);
  }

  const NESTED := Fmt([65, 40, 65, 40, 99, 41, 41], [], Ary([Ary([Ary([Atom(1, 1)])])]))
  /** An image of A(A(c)) with one outer element, whose inner count is 2^31. */
  const NESTED_COUNT: bytes :=
    [116, 112, 108, 0, 24, 0, 0, 0, 65, 40, 65, 40, 99, 41, 41, 0, 1, 0, 0, 0, 0, 0, 0, 128]

  /** The same happens below a small count. */
  lemma NestedCountIsAccepted()
    ensures WfFmt(NESTED) && Accepted(NESTED, NESTED_COUNT, false, false) && !SmallCounts(NESTED, NESTED_COUNT, false)
    ensures !ReadsInside(NESTED, NESTED_COUNT, false)
    ensures ParseRest(Kids(NESTED), 0, 0, NESTED_COUNT, DataStart(NESTED), Order(false, false), Unsigned).Bad?
  {
    NestedPreamble();
    var o := Order(false, false);
    var ns, inner := Kids(NESTED), [Ary([Atom(1, 1)])];
    assert ns == [Ary(inner)];
    NestedInner(o);
    ParseRestField(ns, 0, 0, NESTED_COUNT, 16, o, Signed);
    ParseRestEnds(ns, 0, NESTED_COUNT, 24, o, Signed);
    ParseRestField(ns, 0, 0, NESTED_COUNT, 16, o, Strict);
    AcceptedIsReadIff(NESTED, NESTED_COUNT, false, false);
  }

  lemma HugeCountPreamble()
    ensures WfFmt(CHARS) && DataStart(CHARS) == 13 && PreambleOk(CHARS, HUGE_COUNT, Order(false, false))
    ensures OrderOf(HUGE_COUNT, false) == Order(false, false) && GetU32(HUGE_COUNT[4..8], false) == |HUGE_COUNT|
  {
    var t := CHARS.text;
    NoOctothorpes(t);
    assert HUGE_COUNT[..3] == MAGIC;
    assert HUGE_COUNT[4..8] == [17, 0, 0, 0];
    assert HUGE_COUNT[8..13] == t + [0];
    assert HUGE_COUNT[13..13] == [];
  }

  lemma NestedPreamble()
    ensures WfFmt(NESTED) && DataStart(NESTED) == 16 && PreambleOk(NESTED, NESTED_COUNT, Order(false, false))
    ensures OrderOf(NESTED_COUNT, false) == Order(false, false) && GetU32(NESTED_COUNT[4..8], false) == |NESTED_COUNT|
  {
    hide GetU32, WfShape, UsesStrings, Octothorpes;
    NestedShape();
    var t := NESTED.text;
    NoOctothorpes(t);
    NestedSize();
    assert NESTED_COUNT[..3] == MAGIC;
    assert NESTED_COUNT[8..16] == t + [0];
    assert NESTED_COUNT[16..16] == [];
  }

  lemma NestedSize()
    ensures GetU32(NESTED_COUNT[4..8], false) == |NESTED_COUNT|
  {
    assert NESTED_COUNT[4..8] == [24, 0, 0, 0];
  }

  lemma NestedShape()
    ensures WfShape(NESTED.root) && !UsesStrings(NESTED.root)
  {
    var c, inner := Atom(1, 1), Ary([Atom(1, 1)]);
    assert forall k | k in [c] :: k == c;
    assert WfShape(inner) && !UsesStrings(inner);
    assert forall k | k in [inner] :: k == inner;
    assert WfShape(Ary([inner])) && !UsesStrings(Ary([inner]));
    assert forall k | k in [Ary([inner])] :: k == Ary([inner]);
  }

  lemma {:induction false} NoOctothorpes(t: bytes)
    requires forall i | 0 <= i < |t| :: t[i] != OCTOTHORPE
    ensures Octothorpes(t) == 0
  {
    if t != [] {
      NoOctothorpes(t[1..]);
    }
  }

  lemma NestedInner(o: Order)
    requires !o.ImageBig()
    ensures WfShape(Ary([Ary([Atom(1, 1)])]))
    ensures ParseCell(Ary([Ary([Atom(1, 1)])]), NESTED_COUNT, 16, o, Signed) == Got(Arr([[Arr([])]]), 24)
    ensures ParseCell(Ary([Ary([Atom(1, 1)])]), NESTED_COUNT, 16, o, Strict).Bad?
  {
    NestedShape();
    var ns := [Ary([Atom(1, 1)])];
    assert NESTED_COUNT[16..20] == [1, 0, 0, 0] && NESTED_COUNT[20..24] == [0, 0, 0, 128];
    assert GetU32(NESTED_COUNT[16..20], false) == 1 && GetU32(NESTED_COUNT[20..24], false) == TWO_31;
    SignedCountWraps([Atom(1, 1)], NESTED_COUNT, 20, o);
    NestedElement(ns, o);
    OneElement(ns, o);
  }

  lemma OneElement(ns: seq<Shape>, o: Order)
    requires WfKids(ns) && WalkOk(ns, Walk(ns))
    requires ParseRec(ns, Walk(ns), NESTED_COUNT, 20, o, Signed) == Got([Arr([])], 24)
    requires ParseRec(ns, Walk(ns), NESTED_COUNT, 20, o, Strict).Bad?
    ensures ParseRecs(ns, 1, NESTED_COUNT, 20, o, Signed) == Got([[Arr([])]], 24)
    ensures ParseRecs(ns, 1, NESTED_COUNT, 20, o, Strict).Bad?
  {
    hide ParseRec;
    assert ParseRecs(ns, 0, NESTED_COUNT, 24, o, Signed) == Got([], 24);
    var recs: seq<Record> := [[Arr([])]];
    assert recs + [] == recs;
  }

  lemma NestedElement(ns: seq<Shape>, o: Order)
    requires ns == [Ary([Atom(1, 1)])] && WfKids(ns) && !o.ImageBig()
    requires ParseCell(ns[0], NESTED_COUNT, 20, o, Signed) == Got(Arr([]), 24)
    requires ParseCell(ns[0], NESTED_COUNT, 20, o, Strict).Bad?
    ensures WalkOk(ns, Walk(ns)) && ParseRec(ns, Walk(ns), NESTED_COUNT, 20, o, Signed) == Got([Arr([])], 24)
    ensures ParseRec(ns, Walk(ns), NESTED_COUNT, 20, o, Strict).Bad?
  {
    hide ParseCell;
    WalkIsOk(ns);
    assert Rest(ns, 1, 0) == [] && Rest(ns, 0, 0) == [(0, 0)] + Rest(ns, 1, 0);
    assert Walk(ns) == [(0, 0)] && Walk(ns)[1..] == [];
    assert ParseRec(ns, [], NESTED_COUNT, 24, o, Signed) == Got([], 24);
    var rec: Record := [Arr([])];
    assert rec + [] == rec;
  }
}
