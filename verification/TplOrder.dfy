/** Byte order: an image with every multi-byte field reversed means the same on a machine that swaps. */
module TplOrder {
  import opened Sequences
  import opened Bytes
  import opened TplWords
  import opened TplFormat
  import opened TplCodec

  /** Without counts of 2^31 or more, it does not matter how counts are taken. */
  lemma StrictRecIsAny(ns: seq<Shape>, w: seq<(nat, nat)>, text: bytes, pos: nat, o: Order, mode: CountMode)
    requires WfKids(ns) && WalkOk(ns, w) && pos <= |text| && ParseRec(ns, w, text, pos, o, Strict).Got?
    ensures ParseRec(ns, w, text, pos, o, mode) == ParseRec(ns, w, text, pos, o, Strict)
  {
    var Got(rec, q) := ParseRec(ns, w, text, pos, o, Strict);
    EncOfParseRec(ns, w, text, pos, o);
    ParseOfEncRec(ns, w, rec, text, pos, o, mode);
  }

  lemma StrictCellIsAny(s: Shape, text: bytes, pos: nat, o: Order, mode: CountMode)
    requires WfShape(s) && !s.Pound? && pos <= |text| && ParseCell(s, text, pos, o, Strict).Got?
    ensures ParseCell(s, text, pos, o, mode) == ParseCell(s, text, pos, o, Strict)
  {
    var Got(cell, q) := ParseCell(s, text, pos, o, Strict);
    EncOfParseCell(s, text, pos, o);
    ParseOfEncCell(s, cell, text, pos, o, mode);
  }

  /**
   The size walker's signed count: an array of 2^31 or more elements is taken to be just its count
   word, although the unpacker finds elements behind it.
   */
  lemma SignedCountWraps(kids: seq<Shape>, text: bytes, pos: nat, o: Order)
    requires WfShape(Ary(kids)) && pos + 4 <= |text|
    requires GetU32(text[pos..pos + 4], o.ImageBig()) >= TWO_31
    ensures ParseCell(Ary(kids), text, pos, o, Signed) == Got(Arr([]), pos + 4)
    ensures var r := ParseCell(Ary(kids), text, pos, o, Unsigned);
            r.Got? ==> |r.val.recs| >= TWO_31
  {
  }

  /**
   The values that the size walker sees are well typed, since it sees no huge arrays. In a text of at
   most 2^31 bytes neither does the unpacker, as every element takes at least one byte.
   */
  lemma {:induction false} ParsedIsTyped(s: Shape, text: bytes, pos: nat, o: Order, mode: CountMode)
    requires WfShape(s) && pos <= |text| && (mode == Unsigned ==> |text| <= TWO_31)
    requires ParseCell(s, text, pos, o, mode).Got?
    ensures TypedCell(s, ParseCell(s, text, pos, o, mode).val)
    decreases s, 0, 0
  {
    hide GetU32, ParseRecs, ParseStrs, TypedRecs;
    match s
    case Atom(_, _) =>
    case Str(num) => EncOfParseStrs(num, text, pos, o.ImageBig());
    case Bin =>
    case Ary(kids) =>
      var n := GetU32(text[pos..pos + 4], o.ImageBig());
      var seen := if n >= TWO_31 && mode == Signed then 0 else n;
      RecsTakeBytes(kids, seen, text, pos + 4, o, mode);
      ParsedRecsTyped(kids, seen, text, pos + 4, o, mode);
  }

  lemma {:induction false} ParsedRecTyped(ns: seq<Shape>, w: seq<(nat, nat)>, text: bytes, pos: nat, o: Order,
                                          mode: CountMode)
    requires WfKids(ns) && WalkOk(ns, w) && pos <= |text| && (mode == Unsigned ==> |text| <= TWO_31)
    requires ParseRec(ns, w, text, pos, o, mode).Got?
    ensures TypedRec(ns, w, ParseRec(ns, w, text, pos, o, mode).val)
    decreases ns, 0, |w|
  {
    hide ParseCell, TypedCell;
    if w != [] {
      var q := ParseCell(ns[w[0].0], text, pos, o, mode).pos;
      ParsedIsTyped(ns[w[0].0], text, pos, o, mode);
      ParsedRecTyped(ns, w[1..], text, q, o, mode);
      assert ParseRec(ns, w, text, pos, o, mode).val[1..] == ParseRec(ns, w[1..], text, q, o, mode).val;
    }
  }

  lemma {:induction false} ParsedRecsTyped(ns: seq<Shape>, n: nat, text: bytes, pos: nat, o: Order, mode: CountMode)
    requires WfKids(ns) && pos <= |text| && (mode == Unsigned ==> |text| <= TWO_31)
    requires ParseRecs(ns, n, text, pos, o, mode).Got?
    ensures TypedRecs(ns, ParseRecs(ns, n, text, pos, o, mode).val)
    decreases ns, 1, n
  {
    hide ParseRec, TypedRec, Walk, WalkOk;
    if n > 0 {
      WalkIsOk(ns);
      var q := ParseRec(ns, Walk(ns), text, pos, o, mode).pos;
      ParsedRecTyped(ns, Walk(ns), text, pos, o, mode);
      ParsedRecsTyped(ns, n - 1, text, q, o, mode);
      assert ParseRecs(ns, n, text, pos, o, mode).val[1..] == ParseRecs(ns, n - 1, text, q, o, mode).val;
    }
  }

  lemma CellTakesBytes(s: Shape, text: bytes, pos: nat, o: Order, mode: CountMode)
    requires WfShape(s) && ParseCell(s, text, pos, o, mode).Got?
    ensures ParseCell(s, text, pos, o, mode).pos > pos
  {
    hide GetU32, ParseRecs;
    if s.Atom? {
      ProductPositive(s.sz, s.num);
    }
  }

  lemma ProductPositive(a: nat, b: nat)
    requires a > 0 && b > 0
    ensures a * b > 0
  {
  }

  /** A level has at least one field, and it takes at least one byte. */
  lemma RecTakesBytes(ns: seq<Shape>, text: bytes, pos: nat, o: Order, mode: CountMode)
    requires WfKids(ns) && ns != [] && WalkOk(ns, Walk(ns)) && ParseRec(ns, Walk(ns), text, pos, o, mode).Got?
    ensures ParseRec(ns, Walk(ns), text, pos, o, mode).pos > pos
  {
    hide ParseCell, Walk;
    RestVisitsFirst(ns);
    CellTakesBytes(ns[Walk(ns)[0].0], text, pos, o, mode);
  }

  lemma RestVisitsFirst(ns: seq<Shape>)
    requires WfLevel(ns) && ns != []
    ensures Walk(ns) != []
  {
    WalkVisitsEachSlotOnce(ns);
    assert !ns[0].Pound?;
    assert (0, 0) in Walk(ns);
  }

  lemma {:induction false} RecsTakeBytes(ns: seq<Shape>, n: nat, text: bytes, pos: nat, o: Order, mode: CountMode)
    requires WfKids(ns) && ns != [] && ParseRecs(ns, n, text, pos, o, mode).Got?
    ensures ParseRecs(ns, n, text, pos, o, mode).pos >= pos + n
    decreases n
  {
    hide ParseRec, Walk, WalkOk;
    if n > 0 {
      WalkIsOk(ns);
      RecTakesBytes(ns, text, pos, o, mode);
      RecsTakeBytes(ns, n - 1, text, ParseRec(ns, Walk(ns), text, pos, o, mode).pos, o, mode);
    }
  }

  /** What the unpacker reads without meeting a huge array is what the strict parser reads. */
  lemma {:induction false} TypedIsStrict(s: Shape, text: bytes, pos: nat, o: Order)
    requires WfShape(s) && ParseCell(s, text, pos, o, Unsigned).Got?
    requires TypedCell(s, ParseCell(s, text, pos, o, Unsigned).val)
    ensures ParseCell(s, text, pos, o, Strict) == ParseCell(s, text, pos, o, Unsigned)
    decreases s, 0, 0
  {
    hide GetU32, ParseRecs, ParseStrs, TypedRecs;
    if s.Ary? {
      TypedRecsStrict(s.kids, GetU32(text[pos..pos + 4], o.ImageBig()), text, pos + 4, o);
    }
  }

  lemma {:induction false} TypedRecStrict(ns: seq<Shape>, w: seq<(nat, nat)>, text: bytes, pos: nat, o: Order)
    requires WfKids(ns) && WalkOk(ns, w) && ParseRec(ns, w, text, pos, o, Unsigned).Got?
    requires TypedRec(ns, w, ParseRec(ns, w, text, pos, o, Unsigned).val)
    ensures ParseRec(ns, w, text, pos, o, Strict) == ParseRec(ns, w, text, pos, o, Unsigned)
    decreases ns, 0, |w|
  {
    hide ParseCell, TypedCell;
    if w != [] {
      var q := ParseCell(ns[w[0].0], text, pos, o, Unsigned).pos;
      assert ParseRec(ns, w, text, pos, o, Unsigned).val[1..] == ParseRec(ns, w[1..], text, q, o, Unsigned).val;
      TypedIsStrict(ns[w[0].0], text, pos, o);
      TypedRecStrict(ns, w[1..], text, q, o);
    }
  }

  lemma {:induction false} TypedRecsStrict(ns: seq<Shape>, n: nat, text: bytes, pos: nat, o: Order)
    requires WfKids(ns) && ParseRecs(ns, n, text, pos, o, Unsigned).Got?
    requires TypedRecs(ns, ParseRecs(ns, n, text, pos, o, Unsigned).val)
    ensures ParseRecs(ns, n, text, pos, o, Strict) == ParseRecs(ns, n, text, pos, o, Unsigned)
    decreases ns, 1, n
  {
    hide ParseRec, TypedRec, Walk, WalkOk;
    if n > 0 {
      WalkIsOk(ns);
      var q := ParseRec(ns, Walk(ns), text, pos, o, Unsigned).pos;
      assert ParseRecs(ns, n, text, pos, o, Unsigned).val[1..] == ParseRecs(ns, n - 1, text, q, o, Unsigned).val;
      TypedRecStrict(ns, Walk(ns), text, pos, o);
      TypedRecsStrict(ns, n - 1, text, q, o);
    }
  }

  /**
   So for a level that the size walker takes, reading it in `Unsigned` mode, each array to its own end and
   then on behind that, gives the same exactly if every count met, nested ones included, is below 2^31. In a
   text of at most 2^31 bytes that is exactly when this stays inside the text at all.
   */
  lemma SignedExtentIsRightIff(ns: seq<Shape>, w: seq<(nat, nat)>, text: bytes, pos: nat, o: Order)
    requires WfKids(ns) && WalkOk(ns, w) && pos <= |text| && ParseRec(ns, w, text, pos, o, Signed).Got?
    ensures ParseRec(ns, w, text, pos, o, Unsigned) == ParseRec(ns, w, text, pos, o, Signed)
            <==> ParseRec(ns, w, text, pos, o, Strict).Got?
    ensures |text| <= TWO_31 ==>
              (ParseRec(ns, w, text, pos, o, Unsigned).Got? <==> ParseRec(ns, w, text, pos, o, Strict).Got?)
  {
    hide ParseRec, TypedRec;
    if ParseRec(ns, w, text, pos, o, Strict).Got? {
      StrictRecIsAny(ns, w, text, pos, o, Signed);
      StrictRecIsAny(ns, w, text, pos, o, Unsigned);
    }
    if ParseRec(ns, w, text, pos, o, Unsigned) == ParseRec(ns, w, text, pos, o, Signed) {
      ParsedRecTyped(ns, w, text, pos, o, Signed);
      TypedRecStrict(ns, w, text, pos, o);
    }
    if |text| <= TWO_31 && ParseRec(ns, w, text, pos, o, Unsigned).Got? {
      ParsedRecTyped(ns, w, text, pos, o, Unsigned);
      TypedRecStrict(ns, w, text, pos, o);
    }
  }

  // ------------------------------------------------------------------ the way the unpacker goes

  /**
   The unpacker goes on behind an array where the size walker does, but hands out as many elements as the
   unsigned count says: all of them, and those of the arrays in them, lie inside the text.
   */
  ghost predicate CellInside(s: Shape, text: bytes, pos: nat, o: Order)
    requires WfShape(s)
    decreases s, 0, 0
  {
    match s
    case Ary(kids) => pos + 4 <= |text| && RecsInside(kids, GetU32(text[pos..pos + 4], o.ImageBig()), text, pos + 4, o)
    case _ => true
  }

  ghost predicate RecInside(ns: seq<Shape>, w: seq<(nat, nat)>, text: bytes, pos: nat, o: Order)
    requires WfKids(ns) && WalkOk(ns, w)
    decreases ns, 0, |w|
  {
    w == [] ||
    var r := ParseCell(ns[w[0].0], text, pos, o, Signed);
    r.Got? && CellInside(ns[w[0].0], text, pos, o) && RecInside(ns, w[1..], text, r.pos, o)
  }

  ghost predicate RecsInside(ns: seq<Shape>, n: nat, text: bytes, pos: nat, o: Order)
    requires WfKids(ns)
    decreases ns, 1, n
  {
    n == 0 ||
    (WalkIsOk(ns);
     var r := ParseRec(ns, Walk(ns), text, pos, o, Signed);
     r.Got? && RecInside(ns, Walk(ns), text, pos, o) && RecsInside(ns, n - 1, text, r.pos, o))
  }

  /** So many elements take as many bytes. */
  lemma {:induction false} InsideTakesBytes(ns: seq<Shape>, n: nat, text: bytes, pos: nat, o: Order)
    requires WfKids(ns) && ns != [] && RecsInside(ns, n, text, pos, o) && pos <= |text|
    ensures pos + n <= |text| && ParseRecs(ns, n, text, pos, o, Signed).Got?
    decreases n
  {
    hide ParseRec, Walk, WalkOk, RecInside;
    if n > 0 {
      WalkIsOk(ns);
      RecTakesBytes(ns, text, pos, o, Signed);
      InsideTakesBytes(ns, n - 1, text, ParseRec(ns, Walk(ns), text, pos, o, Signed).pos, o);
    }
  }

  /** In a text of at most 2^31 bytes it stays inside exactly if every count it meets is below 2^31. */
  lemma {:induction false} InsideIsStrict(s: Shape, text: bytes, pos: nat, o: Order)
    requires WfShape(s) && !s.Pound? && pos <= |text| <= TWO_31 && ParseCell(s, text, pos, o, Signed).Got?
    ensures CellInside(s, text, pos, o) <==> ParseCell(s, text, pos, o, Strict).Got?
    decreases s, 0, 0
  {
    hide GetU32, ParseRecs, ParseStrs, RecsInside;
    if s.Ary? {
      var n := GetU32(text[pos..pos + 4], o.ImageBig());
      if RecsInside(s.kids, n, text, pos + 4, o) {
        InsideTakesBytes(s.kids, n, text, pos + 4, o);
      }
      if n < TWO_31 {
        RecsInsideIsStrict(s.kids, n, text, pos + 4, o);
      }
    }
  }

  lemma {:induction false} RecInsideIsStrict(ns: seq<Shape>, w: seq<(nat, nat)>, text: bytes, pos: nat, o: Order)
    requires WfKids(ns) && WalkOk(ns, w) && pos <= |text| <= TWO_31 && ParseRec(ns, w, text, pos, o, Signed).Got?
    ensures RecInside(ns, w, text, pos, o) <==> ParseRec(ns, w, text, pos, o, Strict).Got?
    decreases ns, 0, |w|
  {
    hide ParseCell, CellInside;
    if w != [] {
      var s := ns[w[0].0];
      InsideIsStrict(s, text, pos, o);
      RecInsideIsStrict(ns, w[1..], text, ParseCell(s, text, pos, o, Signed).pos, o);
      if ParseCell(s, text, pos, o, Strict).Got? {
        StrictCellIsAny(s, text, pos, o, Signed);
      }
    }
  }

  lemma {:induction false} RecsInsideIsStrict(ns: seq<Shape>, n: nat, text: bytes, pos: nat, o: Order)
    requires WfKids(ns) && pos <= |text| <= TWO_31 && ParseRecs(ns, n, text, pos, o, Signed).Got?
    ensures RecsInside(ns, n, text, pos, o) <==> ParseRecs(ns, n, text, pos, o, Strict).Got?
    decreases ns, 1, n
  {
    hide ParseRec, RecInside, Walk, WalkOk;
    if n > 0 {
      WalkIsOk(ns);
      RecInsideIsStrict(ns, Walk(ns), text, pos, o);
      RecsInsideIsStrict(ns, n - 1, text, ParseRec(ns, Walk(ns), text, pos, o, Signed).pos, o);
      if ParseRec(ns, Walk(ns), text, pos, o, Strict).Got? {
        StrictRecIsAny(ns, Walk(ns), text, pos, o, Signed);
      }
    }
  }

  // ------------------------------------------------------------------ reversing the fields of an image

  ghost function FlipStr(text: bytes, pos: nat, big: bool): bytes
    requires ParseStr(text, pos, big).Got?
  {
    Reversed(text[pos..pos + 4]) + text[pos + 4..ParseStr(text, pos, big).pos]
  }

  ghost function FlipStrs(n: nat, text: bytes, pos: nat, big: bool): bytes
    requires ParseStrs(n, text, pos, big).Got?
  {
    if n == 0 then [] else FlipStr(text, pos, big) + FlipStrs(n - 1, text, ParseStr(text, pos, big).pos, big)
  }

  /** The bytes of one value with every number reversed and every character left alone. */
  ghost function FlipCell(s: Shape, text: bytes, pos: nat, o: Order): bytes
    requires WfShape(s) && ParseCell(s, text, pos, o, Strict).Got? && pos <= |text|
    decreases s, 0, 0
  {
    match s
    case Atom(sz, num) => ReverseEach(text[pos..pos + sz * num], sz)
    case Str(num) => FlipStrs(num, text, pos, o.ImageBig())
    case Bin => Reversed(text[pos..pos + 4]) + text[pos + 4..ParseCell(s, text, pos, o, Strict).pos]
    case Ary(kids) =>
      Reversed(text[pos..pos + 4]) + FlipRecs(kids, GetU32(text[pos..pos + 4], o.ImageBig()), text, pos + 4, o)
    case Pound(_, _) => []
  }

  ghost function FlipRec(ns: seq<Shape>, w: seq<(nat, nat)>, text: bytes, pos: nat, o: Order): bytes
    requires WfKids(ns) && WalkOk(ns, w) && ParseRec(ns, w, text, pos, o, Strict).Got? && pos <= |text|
    decreases ns, 0, |w|
  {
    if w == [] then []
    else FlipCell(ns[w[0].0], text, pos, o) +
         FlipRec(ns, w[1..], text, ParseCell(ns[w[0].0], text, pos, o, Strict).pos, o)
  }

  ghost function FlipRecs(ns: seq<Shape>, n: nat, text: bytes, pos: nat, o: Order): bytes
    requires WfKids(ns) && ParseRecs(ns, n, text, pos, o, Strict).Got? && pos <= |text|
    decreases ns, 1, n
  {
    if n == 0 then []
    else
      WalkIsOk(ns);
      FlipRec(ns, Walk(ns), text, pos, o) +
      FlipRecs(ns, n - 1, text, ParseRec(ns, Walk(ns), text, pos, o, Strict).pos, o)
  }

  lemma FlipStrIsOther(text: bytes, pos: nat, big: bool)
    requires ParseStr(text, pos, big).Got?
    ensures var v := ParseStr(text, pos, big).val;
            StrFits(v) && FlipStr(text, pos, big) == EncStr(v, !big)
  {
    hide GetU32, PutU32;
    var n := GetU32(text[pos..pos + 4], big);
    U32Inverse(n, text[pos..pos + 4], big);
    OtherOrder(n, big);
  }

  lemma {:induction false} FlipStrsIsOther(n: nat, text: bytes, pos: nat, big: bool)
    requires ParseStrs(n, text, pos, big).Got?
    ensures var ss := ParseStrs(n, text, pos, big).val;
            (forall i | 0 <= i < |ss| :: StrFits(ss[i])) && FlipStrs(n, text, pos, big) == EncStrs(ss, !big)
  {
    hide FlipStr, EncStr, ParseStr, StrFits;
    if n > 0 {
      var q := ParseStr(text, pos, big).pos;
      FlipStrIsOther(text, pos, big);
      FlipStrsIsOther(n - 1, text, q, big);
      assert ParseStrs(n, text, pos, big).val[1..] == ParseStrs(n - 1, text, q, big).val;
    }
  }

  lemma FlipAtomIsOther(s: Shape, text: bytes, pos: nat, o: Order)
    requires WfShape(s) && s.Atom? && ParseCell(s, text, pos, o, Strict).Got? && pos <= |text|
    ensures var cell := ParseCell(s, text, pos, o, Strict).val;
            TypedCell(s, cell) && FlipCell(s, text, pos, o) == EncCell(s, cell, o.Flip())
  {
    hide ReverseEach;
    EncOfParseCell(s, text, pos, o);
    ReverseEachTwice(text[pos..pos + s.sz * s.num], s.sz);
  }

  lemma FlipBinIsOther(text: bytes, pos: nat, o: Order)
    requires ParseCell(Bin, text, pos, o, Strict).Got? && pos <= |text|
    ensures var cell := ParseCell(Bin, text, pos, o, Strict).val;
            TypedCell(Bin, cell) && FlipCell(Bin, text, pos, o) == EncCell(Bin, cell, o.Flip())
  {
    hide GetU32, PutU32;
    EncOfParseCell(Bin, text, pos, o);
    CountFlips(text[pos..pos + 4], o.ImageBig());
  }

  lemma CountFlips(bs: bytes, big: bool)
    requires |bs| == 4
    ensures Reversed(bs) == PutU32(GetU32(bs, big), !big)
  {
    hide GetU32, PutU32;
    var n := GetU32(bs, big);
    U32Inverse(n, bs, big);
    OtherOrder(n, big);
  }

  /** Reversing the fields of a value gives its encoding in the other byte order. */
  lemma {:induction false} FlipCellIsOther(s: Shape, text: bytes, pos: nat, o: Order)
    requires WfShape(s) && ParseCell(s, text, pos, o, Strict).Got? && pos <= |text|
    ensures var cell := ParseCell(s, text, pos, o, Strict).val;
            TypedCell(s, cell) && FlipCell(s, text, pos, o) == EncCell(s, cell, o.Flip())
    decreases s, 0, 0
  {
    hide GetU32, PutU32, EncRecs, EncStrs, ParseRecs, ParseStrs, FlipStrs, FlipRecs, Reversed;
    match s
    case Atom(_, _) =>
      FlipAtomIsOther(s, text, pos, o);
    case Str(num) =>
      EncOfParseCell(s, text, pos, o);
      FlipStrsIsOther(num, text, pos, o.ImageBig());
    case Bin =>
      FlipBinIsOther(text, pos, o);
    case Ary(kids) =>
      EncOfParseCell(s, text, pos, o);
      CountFlips(text[pos..pos + 4], o.ImageBig());
      FlipRecsIsOther(kids, GetU32(text[pos..pos + 4], o.ImageBig()), text, pos + 4, o);
  }

  lemma {:induction false} FlipRecIsOther(ns: seq<Shape>, w: seq<(nat, nat)>, text: bytes, pos: nat, o: Order)
    requires WfKids(ns) && WalkOk(ns, w) && ParseRec(ns, w, text, pos, o, Strict).Got? && pos <= |text|
    ensures var rec := ParseRec(ns, w, text, pos, o, Strict).val;
            TypedRec(ns, w, rec) && FlipRec(ns, w, text, pos, o) == EncRec(ns, w, rec, o.Flip())
    decreases ns, 0, |w|
  {
    hide EncCell, ParseCell, TypedCell, FlipCell;
    if w != [] {
      var q := ParseCell(ns[w[0].0], text, pos, o, Strict).pos;
      FlipCellIsOther(ns[w[0].0], text, pos, o);
      FlipRecIsOther(ns, w[1..], text, q, o);
      assert ParseRec(ns, w, text, pos, o, Strict).val[1..] == ParseRec(ns, w[1..], text, q, o, Strict).val;
    }
  }

  lemma {:induction false} FlipRecsIsOther(ns: seq<Shape>, n: nat, text: bytes, pos: nat, o: Order)
    requires WfKids(ns) && ParseRecs(ns, n, text, pos, o, Strict).Got? && pos <= |text|
    ensures var recs := ParseRecs(ns, n, text, pos, o, Strict).val;
            TypedRecs(ns, recs) && FlipRecs(ns, n, text, pos, o) == EncRecs(ns, recs, o.Flip())
    decreases ns, 1, n
  {
    hide EncRec, ParseRec, TypedRec, FlipRec, WalkOk, Walk;
    if n > 0 {
      WalkIsOk(ns);
      var q := ParseRec(ns, Walk(ns), text, pos, o, Strict).pos;
      FlipRecIsOther(ns, Walk(ns), text, pos, o);
      FlipRecsIsOther(ns, n - 1, text, q, o);
      assert ParseRecs(ns, n, text, pos, o, Strict).val[1..] == ParseRecs(ns, n - 1, text, q, o, Strict).val;
    }
  }

  // ------------------------------------------------------------------ sizes do not depend on the order

  lemma {:induction false} SameStrsSize(ss: seq<Option<bytes>>, big: bool)
    requires forall i | 0 <= i < |ss| :: StrFits(ss[i])
    ensures |EncStrs(ss, big)| == |EncStrs(ss, !big)|
  {
    if ss != [] {
      SameStrsSize(ss[1..], big);
    }
  }

  lemma {:induction false} SameCellSize(s: Shape, cell: Cell, o: Order)
    requires WfShape(s) && TypedCell(s, cell)
    ensures |EncCell(s, cell, o)| == |EncCell(s, cell, o.Flip())|
    decreases s, 0, 0
  {
    hide EncRecs, EncStrs, PutU32;
    match s
    case Str(_) => SameStrsSize(cell.ss, o.ImageBig());
    case Ary(kids) => SameRecsSize(kids, cell.recs, o);
    case _ =>
  }

  lemma {:induction false} SameSize(ns: seq<Shape>, w: seq<(nat, nat)>, rec: Record, o: Order)
    requires WfKids(ns) && WalkOk(ns, w) && TypedRec(ns, w, rec)
    ensures |EncRec(ns, w, rec, o)| == |EncRec(ns, w, rec, o.Flip())|
    decreases ns, 0, |w|
  {
    hide EncCell, TypedCell;
    if w != [] {
      SameCellSize(ns[w[0].0], rec[0], o);
      SameSize(ns, w[1..], rec[1..], o);
    }
  }

  lemma {:induction false} SameRecsSize(ns: seq<Shape>, recs: seq<Record>, o: Order)
    requires WfKids(ns) && TypedRecs(ns, recs)
    ensures |EncRecs(ns, recs, o)| == |EncRecs(ns, recs, o.Flip())|
    decreases ns, 1, |recs|
  {
    hide EncRec, TypedRec, Walk, WalkOk;
    if recs != [] {
      WalkIsOk(ns);
      SameSize(ns, Walk(ns), recs[0], o);
      SameRecsSize(ns, recs[1..], o);
    }
  }
}
