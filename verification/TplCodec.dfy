/** What the bytes of an image mean: encoding of packed values, and parsing them back. */
module TplCodec {
  import opened Bytes
  import opened TplWords
  import opened TplFormat

  datatype Option<T> = None | Some(value: T)

  /** A packed value: an atom's bytes, its strings (None is the NULL string), a buffer, or an array's elements. */
  datatype Cell =
    | Raw(bs: bytes)
    | Strs(ss: seq<Option<bytes>>)
    | Buf(bs: bytes)
    | Arr(recs: seq<seq<Cell>>)

  /** One element of an array, or the root's content: a cell for each step of the walk over its level. */
  type Record = seq<Cell>

  /** Byte order of the machine, and whether the image has the other one. */
  datatype Order = Order(big: bool, swap: bool) {
    function ImageBig(): bool {
      big != swap
    }

    function Flip(): Order {
      Order(big, !swap)
    }
  }

  // ------------------------------------------------------------------ well-typed values

  ghost predicate StrFits(v: Option<bytes>) {
    v.Some? ==> |v.value| + 1 < TWO_32
  }

  ghost predicate TypedCell(s: Shape, cell: Cell)
    requires WfShape(s)
    decreases s, 0, 0
  {
    match (s, cell)
    case (Atom(sz, num), Raw(bs)) => |bs| == sz * num
    case (Str(num), Strs(ss)) => |ss| == num && forall i | 0 <= i < num :: StrFits(ss[i])
    case (Bin, Buf(bs)) => |bs| < TWO_32
    case (Ary(kids), Arr(recs)) => |recs| < TWO_31 && TypedRecs(kids, recs)
    case _ => false
  }

  ghost predicate WalkOk(ns: seq<Shape>, w: seq<(nat, nat)>) {
    forall i | 0 <= i < |w| :: w[i].0 < |ns| && !ns[w[i].0].Pound?
  }

  ghost predicate WfKids(ns: seq<Shape>) {
    WfLevel(ns) && forall k | k in ns :: WfShape(k)
  }

  lemma WalkIsOk(ns: seq<Shape>)
    requires WfKids(ns)
    ensures WalkOk(ns, Walk(ns))
  {
    WalkVisitsEachSlotOnce(ns);
    var w := Walk(ns);
    forall i | 0 <= i < |w|
      ensures w[i].0 < |ns| && !ns[w[i].0].Pound?
    {
      assert (w[i].0, w[i].1) in w;
    }
  }

  ghost predicate TypedRec(ns: seq<Shape>, w: seq<(nat, nat)>, rec: Record)
    requires WfKids(ns) && WalkOk(ns, w)
    decreases ns, 0, |w|
  {
    |rec| == |w| &&
    (w != [] ==> TypedCell(ns[w[0].0], rec[0]) && TypedRec(ns, w[1..], rec[1..]))
  }

  ghost predicate TypedRecs(ns: seq<Shape>, recs: seq<Record>)
    requires WfKids(ns)
    decreases ns, 1, |recs|
  {
    recs == [] || (WalkIsOk(ns); TypedRec(ns, Walk(ns), recs[0]) && TypedRecs(ns, recs[1..]))
  }

  // ------------------------------------------------------------------ encoding

  /** Strings carry their length plus one, so that a NULL string differs from an empty one. */
  ghost function EncStr(v: Option<bytes>, big: bool): bytes
    requires StrFits(v)
  {
    match v case None => PutU32(0, big) case Some(t) => PutU32(|t| + 1, big) + t
  }

  ghost function EncStrs(ss: seq<Option<bytes>>, big: bool): bytes
    requires forall i | 0 <= i < |ss| :: StrFits(ss[i])
  {
    if ss == [] then [] else EncStr(ss[0], big) + EncStrs(ss[1..], big)
  }

  ghost function EncCell(s: Shape, cell: Cell, o: Order): bytes
    requires WfShape(s) && TypedCell(s, cell)
    decreases s, 0, 0
  {
    match s
    case Atom(sz, num) => Native(cell.bs, sz, o.swap)
    case Str(num) => EncStrs(cell.ss, o.ImageBig())
    case Bin => PutU32(|cell.bs|, o.ImageBig()) + cell.bs
    case Ary(kids) => PutU32(|cell.recs|, o.ImageBig()) + EncRecs(kids, cell.recs, o)
    case Pound(_, _) => []
  }

  ghost function EncRec(ns: seq<Shape>, w: seq<(nat, nat)>, rec: Record, o: Order): bytes
    requires WfKids(ns) && WalkOk(ns, w) && TypedRec(ns, w, rec)
    decreases ns, 0, |w|
  {
    if w == [] then [] else EncCell(ns[w[0].0], rec[0], o) + EncRec(ns, w[1..], rec[1..], o)
  }

  ghost function EncRecs(ns: seq<Shape>, recs: seq<Record>, o: Order): bytes
    requires WfKids(ns) && TypedRecs(ns, recs)
    decreases ns, 1, |recs|
  {
    if recs == [] then []
    else
      WalkIsOk(ns);
      EncRec(ns, Walk(ns), recs[0], o) + EncRecs(ns, recs[1..], o)
  }

  // ------------------------------------------------------------------ parsing

  /** A value and the position behind it, or the failure of running past the end of the buffer. */
  datatype Parsed<T> = Bad | Got(val: T, pos: nat)

  /**
   How an array's count word is taken. The size walker keeps it in a signed int, so that a count of
   2^31 or more is negative and its loop does not run; the unpacker keeps it unsigned; `Strict`
   rejects such counts.
   */
  datatype CountMode = Signed | Unsigned | Strict

  ghost function ParseStr(text: bytes, pos: nat, big: bool): (r: Parsed<Option<bytes>>)
    ensures r.Got? ==> pos <= r.pos <= |text|
  {
    if pos + 4 > |text| then Bad
    else
      var slen := GetU32(text[pos..pos + 4], big);
      var l := if slen > 1 then slen - 1 else 0;
      if pos + 4 + l > |text| then Bad
      else Got(if slen == 0 then None else Some(text[pos + 4..pos + 4 + l]), pos + 4 + l)
  }

  ghost function ParseStrs(n: nat, text: bytes, pos: nat, big: bool): (r: Parsed<seq<Option<bytes>>>)
    ensures r.Got? ==> pos <= r.pos && |r.val| == n
    ensures r.Got? && pos <= |text| ==> r.pos <= |text|
  {
    if n == 0 then Got([], pos)
    else
      match ParseStr(text, pos, big)
      case Bad => Bad
      case Got(v, q) =>
        match ParseStrs(n - 1, text, q, big)
        case Bad => Bad
        case Got(ss, end) => Got([v] + ss, end)
  }

  ghost function ParseCell(s: Shape, text: bytes, pos: nat, o: Order, mode: CountMode): (r: Parsed<Cell>)
    requires WfShape(s)
    ensures r.Got? ==> pos <= r.pos
    ensures r.Got? && pos <= |text| ==> r.pos <= |text|
    decreases s, 0, 0
  {
    match s
    case Atom(sz, num) =>
      if pos + sz * num > |text| then Bad
      else Got(Raw(Native(text[pos..pos + sz * num], sz, o.swap)), pos + sz * num)
    case Str(num) =>
      (match ParseStrs(num, text, pos, o.ImageBig())
       case Bad => Bad
       case Got(ss, q) => Got(Strs(ss), q))
    case Bin =>
      if pos + 4 > |text| then Bad
      else
        var n := GetU32(text[pos..pos + 4], o.ImageBig());
        if pos + 4 + n > |text| then Bad else Got(Buf(text[pos + 4..pos + 4 + n]), pos + 4 + n)
    case Ary(kids) =>
      if pos + 4 > |text| then Bad
      else
        var n := GetU32(text[pos..pos + 4], o.ImageBig());
        if n >= TWO_31 && mode == Strict then Bad
        else
          (match ParseRecs(kids, if n >= TWO_31 && mode == Signed then 0 else n, text, pos + 4, o, mode)
           case Bad => Bad
           case Got(recs, q) => Got(Arr(recs), q))
    case Pound(_, _) => Bad
  }

  ghost function ParseRec(ns: seq<Shape>, w: seq<(nat, nat)>, text: bytes, pos: nat, o: Order,
                          mode: CountMode): (r: Parsed<Record>)
    requires WfKids(ns) && WalkOk(ns, w)
    ensures r.Got? ==> pos <= r.pos && |r.val| == |w|
    ensures r.Got? && pos <= |text| ==> r.pos <= |text|
    decreases ns, 0, |w|
  {
    if w == [] then Got([], pos)
    else
      match ParseCell(ns[w[0].0], text, pos, o, mode)
      case Bad => Bad
      case Got(cell, q) =>
        match ParseRec(ns, w[1..], text, q, o, mode)
        case Bad => Bad
        case Got(rec, end) => Got([cell] + rec, end)
  }

  ghost function ParseRecs(ns: seq<Shape>, n: nat, text: bytes, pos: nat, o: Order,
                           mode: CountMode): (r: Parsed<seq<Record>>)
    requires WfKids(ns)
    ensures r.Got? ==> pos <= r.pos && |r.val| == n
    ensures r.Got? && pos <= |text| ==> r.pos <= |text|
    decreases ns, 1, n
  {
    if n == 0 then Got([], pos)
    else
      WalkIsOk(ns);
      match ParseRec(ns, Walk(ns), text, pos, o, mode)
      case Bad => Bad
      case Got(rec, q) =>
        match ParseRecs(ns, n - 1, text, q, o, mode)
        case Bad => Bad
        case Got(recs, end) => Got([rec] + recs, end)
  }

  // ------------------------------------------------------------------ the two are inverse

  /** The bytes e stand at position pos of the text. */
  ghost predicate Holds(text: bytes, pos: nat, e: bytes) {
    pos + |e| <= |text| && text[pos..pos + |e|] == e
  }

  lemma HoldsSplit(text: bytes, pos: nat, a: bytes, b: bytes)
    ensures Holds(text, pos, a + b) <==> Holds(text, pos, a) && Holds(text, pos + |a|, b)
  {
    if pos + |a| + |b| <= |text| {
      var t := text[pos..pos + |a| + |b|];
      assert t == text[pos..pos + |a|] + text[pos + |a|..pos + |a| + |b|];
      if t == a + b {
        assert text[pos..pos + |a|] == t[..|a|] == a;
        assert text[pos + |a|..pos + |a| + |b|] == t[|a|..] == b;
      }
    }
  }

  lemma ParseOfEncStr(v: Option<bytes>, text: bytes, pos: nat, big: bool)
    requires StrFits(v) && Holds(text, pos, EncStr(v, big))
    ensures ParseStr(text, pos, big) == Got(v, pos + |EncStr(v, big)|)
  {
    hide GetU32, PutU32;
    var n := if v.Some? then |v.value| + 1 else 0;
    U32Inverse(n, text[pos..pos + 4], big);
    if v.Some? {
      HoldsSplit(text, pos, PutU32(n, big), v.value);
    }
  }

  lemma {:induction false} ParseOfEncStrs(ss: seq<Option<bytes>>, text: bytes, pos: nat, big: bool)
    requires (forall i | 0 <= i < |ss| :: StrFits(ss[i])) && Holds(text, pos, EncStrs(ss, big))
    ensures ParseStrs(|ss|, text, pos, big) == Got(ss, pos + |EncStrs(ss, big)|)
  {
    hide EncStr, ParseStr, Holds;
    if ss != [] {
      HoldsSplit(text, pos, EncStr(ss[0], big), EncStrs(ss[1..], big));
      ParseOfEncStr(ss[0], text, pos, big);
      ParseOfEncStrs(ss[1..], text, pos + |EncStr(ss[0], big)|, big);
      assert [ss[0]] + ss[1..] == ss;
    }
  }

  /** A machine writes an atom just as it holds it, and a buffer behind a word with its length. */
  lemma EncodedBytes(s: Shape, cell: Cell, big: bool)
    requires WfShape(s) && TypedCell(s, cell) && (s.Atom? || s.Bin? || s.Ary?)
    ensures s.Atom? ==> EncCell(s, cell, Order(big, false)) == cell.bs
    ensures s.Bin? ==> EncCell(s, cell, Order(big, false)) == PutU32(|cell.bs|, big) + cell.bs
    ensures s.Ary? ==> EncCell(s, cell, Order(big, false)) ==
                         PutU32(|cell.recs|, big) + EncRecs(s.kids, cell.recs, Order(big, false))
  {
  }

  /** A string stands behind a word with its length and 1, and NULL is a word of 0. */
  lemma EncodedStrs(num: nat, cell: Cell, big: bool)
    requires num > 0 && TypedCell(Str(num), cell)
    ensures EncCell(Str(num), cell, Order(big, false)) == EncStrs(cell.ss, big)
    ensures forall s | s in cell.ss :: StrFits(s) && EncStr(s, big) ==
              if s.Some? then PutU32(|s.value| + 1, big) + s.value else [0, 0, 0, 0]
  {
    WordBytes(0, big);
    hide PutU32;
    forall s | s in cell.ss
      ensures StrFits(s) && EncStr(s, big) == if s.Some? then PutU32(|s.value| + 1, big) + s.value else [0, 0, 0, 0]
    {
      var i :| 0 <= i < |cell.ss| && cell.ss[i] == s;
    }
  }

  /** The strings of a field stand one behind the other. */
  lemma {:induction false} StrsInOrder(ss: seq<Option<bytes>>, s: Option<bytes>, big: bool)
    requires StrFits(s) && forall i | 0 <= i < |ss| :: StrFits(ss[i])
    ensures EncStrs(ss + [s], big) == EncStrs(ss, big) + EncStr(s, big) && EncStrs([], big) == []
  {
    hide EncStr;
    if ss == [] {
      assert ss + [s] == [s] && [s][1..] == [];
    } else {
      StrsInOrder(ss[1..], s, big);
      assert (ss + [s])[1..] == ss[1..] + [s];
    }
  }

  /** The fields of an element, as the walk comes to them. */
  lemma {:induction false} FieldsInOrder(ns: seq<Shape>, w: seq<(nat, nat)>, rec: Record, slot: (nat, nat), cell: Cell,
                                         o: Order)
    requires WfKids(ns) && WalkOk(ns, w) && TypedRec(ns, w, rec)
    requires slot.0 < |ns| && !ns[slot.0].Pound? && TypedCell(ns[slot.0], cell)
    ensures WalkOk(ns, w + [slot]) && TypedRec(ns, w + [slot], rec + [cell])
    ensures EncRec(ns, w + [slot], rec + [cell], o) == EncRec(ns, w, rec, o) + EncCell(ns[slot.0], cell, o)
    ensures EncRec(ns, [], [], o) == []
    decreases |w|
  {
    hide TypedCell, EncCell, WfKids;
    if w == [] {
      assert w + [slot] == [slot] && rec + [cell] == [cell] && [slot][1..] == [] && [cell][1..] == [];
      assert TypedRec(ns, [], []) && EncRec(ns, [], [], o) == [];
    } else {
      FieldsInOrder(ns, w[1..], rec[1..], slot, cell, o);
      assert (w + [slot])[1..] == w[1..] + [slot] && (rec + [cell])[1..] == rec[1..] + [cell];
    }
  }

  /** A count below 2^31 is taken alike by all; of a larger one the size walker sees no elements, the unpacker all. */
  lemma CountsMean(kids: seq<Shape>, text: bytes, pos: nat, o: Order, mode: CountMode)
    requires WfShape(Ary(kids)) && pos + 4 <= |text|
    ensures var n := GetU32(text[pos..pos + 4], o.ImageBig());
            var r := ParseCell(Ary(kids), text, pos, o, mode);
            if n >= 0x8000_0000 && !mode.Unsigned? then r == if mode.Signed? then Got(Arr([]), pos + 4) else Bad
            else
              var elements := ParseRecs(kids, n, text, pos + 4, o, mode);
              r == if elements.Got? then Got(Arr(elements.val), elements.pos) else Bad
  {
    hide GetU32;
  }

  lemma ParseOfEncAtom(s: Shape, cell: Cell, text: bytes, pos: nat, o: Order, mode: CountMode)
    requires WfShape(s) && s.Atom? && TypedCell(s, cell) && Holds(text, pos, EncCell(s, cell, o))
    ensures ParseCell(s, text, pos, o, mode) == Got(cell, pos + |EncCell(s, cell, o)|)
  {
    hide ReverseEach;
    ReverseEachTwice(cell.bs, s.sz);
  }

  lemma ParseOfEncBin(cell: Cell, text: bytes, pos: nat, o: Order, mode: CountMode)
    requires TypedCell(Bin, cell) && Holds(text, pos, EncCell(Bin, cell, o))
    ensures ParseCell(Bin, text, pos, o, mode) == Got(cell, pos + |EncCell(Bin, cell, o)|)
  {
    hide GetU32, PutU32;
    HoldsSplit(text, pos, PutU32(|cell.bs|, o.ImageBig()), cell.bs);
    U32Inverse(|cell.bs|, text[pos..pos + 4], o.ImageBig());
  }

  /** Parsing an encoding yields the value, whichever way counts are taken. */
  lemma {:induction false} ParseOfEncCell(s: Shape, cell: Cell, text: bytes, pos: nat, o: Order, mode: CountMode)
    requires WfShape(s) && TypedCell(s, cell) && !s.Pound? && Holds(text, pos, EncCell(s, cell, o))
    ensures ParseCell(s, text, pos, o, mode) == Got(cell, pos + |EncCell(s, cell, o)|)
    decreases s, 0, 0
  {
    hide GetU32, PutU32, EncRecs, EncStrs, ParseRecs, ParseStrs;
    match s
    case Atom(_, _) =>
      ParseOfEncAtom(s, cell, text, pos, o, mode);
    case Str(_) =>
      ParseOfEncStrs(cell.ss, text, pos, o.ImageBig());
    case Bin =>
      ParseOfEncBin(cell, text, pos, o, mode);
    case Ary(kids) =>
      HoldsSplit(text, pos, PutU32(|cell.recs|, o.ImageBig()), EncRecs(kids, cell.recs, o));
      U32Inverse(|cell.recs|, text[pos..pos + 4], o.ImageBig());
      ParseOfEncRecs(kids, cell.recs, text, pos + 4, o, mode);
  }

  lemma {:induction false} ParseOfEncRec(ns: seq<Shape>, w: seq<(nat, nat)>, rec: Record, text: bytes, pos: nat,
                                         o: Order, mode: CountMode)
    requires WfKids(ns) && WalkOk(ns, w) && TypedRec(ns, w, rec) && Holds(text, pos, EncRec(ns, w, rec, o))
    ensures ParseRec(ns, w, text, pos, o, mode) == Got(rec, pos + |EncRec(ns, w, rec, o)|)
    decreases ns, 0, |w|
  {
    hide EncCell, ParseCell, TypedCell, Holds;
    if w != [] {
      var s := ns[w[0].0];
      var e := EncCell(s, rec[0], o);
      HoldsSplit(text, pos, e, EncRec(ns, w[1..], rec[1..], o));
      ParseOfEncCell(s, rec[0], text, pos, o, mode);
      ParseOfEncRec(ns, w[1..], rec[1..], text, pos + |e|, o, mode);
      assert [rec[0]] + rec[1..] == rec;
    }
  }

  lemma {:induction false} ParseOfEncRecs(ns: seq<Shape>, recs: seq<Record>, text: bytes, pos: nat, o: Order,
                                          mode: CountMode)
    requires WfKids(ns) && TypedRecs(ns, recs) && Holds(text, pos, EncRecs(ns, recs, o))
    ensures ParseRecs(ns, |recs|, text, pos, o, mode) == Got(recs, pos + |EncRecs(ns, recs, o)|)
    decreases ns, 1, |recs|
  {
    hide EncRec, ParseRec, TypedRec, Holds, WalkOk, Walk;
    if recs != [] {
      WalkIsOk(ns);
      var e := EncRec(ns, Walk(ns), recs[0], o);
      HoldsSplit(text, pos, e, EncRecs(ns, recs[1..], o));
      ParseOfEncRec(ns, Walk(ns), recs[0], text, pos, o, mode);
      ParseOfEncRecs(ns, recs[1..], text, pos + |e|, o, mode);
      assert [recs[0]] + recs[1..] == recs;
    }
  }

  lemma EncOfParseStr(text: bytes, pos: nat, big: bool)
    requires ParseStr(text, pos, big).Got?
    ensures var Got(v, q) := ParseStr(text, pos, big);
            StrFits(v) && text[pos..q] == EncStr(v, big)
  {
    hide GetU32, PutU32;
    var slen := GetU32(text[pos..pos + 4], big);
    var q := ParseStr(text, pos, big).pos;
    U32Inverse(slen, text[pos..pos + 4], big);
    assert text[pos..q] == text[pos..pos + 4] + text[pos + 4..q];
    if slen == 0 {
      assert text[pos + 4..q] == [];
    }
  }

  lemma {:induction false} EncOfParseStrs(n: nat, text: bytes, pos: nat, big: bool)
    requires ParseStrs(n, text, pos, big).Got? && pos <= |text|
    ensures var Got(ss, q) := ParseStrs(n, text, pos, big);
            (forall i | 0 <= i < |ss| :: StrFits(ss[i])) && text[pos..q] == EncStrs(ss, big)
  {
    hide EncStr, ParseStr, StrFits;
    if n > 0 {
      var Got(ss, end) := ParseStrs(n, text, pos, big);
      var q := ParseStr(text, pos, big).pos;
      EncOfParseStr(text, pos, big);
      EncOfParseStrs(n - 1, text, q, big);
      assert ss[1..] == ParseStrs(n - 1, text, q, big).val;
      assert text[pos..end] == text[pos..q] + text[q..end];
    }
  }

  lemma EncOfParseAtom(s: Shape, text: bytes, pos: nat, o: Order)
    requires WfShape(s) && s.Atom? && ParseCell(s, text, pos, o, Strict).Got? && pos <= |text|
    ensures var Got(cell, q) := ParseCell(s, text, pos, o, Strict);
            TypedCell(s, cell) && text[pos..q] == EncCell(s, cell, o)
  {
    hide ReverseEach;
    ReverseEachTwice(text[pos..pos + s.sz * s.num], s.sz);
  }

  lemma EncOfParseBin(text: bytes, pos: nat, o: Order)
    requires ParseCell(Bin, text, pos, o, Strict).Got? && pos <= |text|
    ensures var Got(cell, q) := ParseCell(Bin, text, pos, o, Strict);
            TypedCell(Bin, cell) && text[pos..q] == EncCell(Bin, cell, o)
  {
    hide GetU32, PutU32;
    var q := ParseCell(Bin, text, pos, o, Strict).pos;
    U32Inverse(0, text[pos..pos + 4], o.ImageBig());
    assert text[pos..q] == text[pos..pos + 4] + text[pos + 4..q];
  }

  /** Whatever parses is the encoding of the parsed value: no other bytes give that value. */
  lemma {:induction false} EncOfParseCell(s: Shape, text: bytes, pos: nat, o: Order)
    requires WfShape(s) && ParseCell(s, text, pos, o, Strict).Got? && pos <= |text|
    ensures var Got(cell, q) := ParseCell(s, text, pos, o, Strict);
            TypedCell(s, cell) && text[pos..q] == EncCell(s, cell, o)
    decreases s, 0, 0
  {
    hide GetU32, PutU32, EncRecs, EncStrs, ParseRecs, ParseStrs;
    var Got(cell, q) := ParseCell(s, text, pos, o, Strict);
    match s
    case Atom(_, _) =>
      EncOfParseAtom(s, text, pos, o);
    case Str(num) =>
      EncOfParseStrs(num, text, pos, o.ImageBig());
    case Bin =>
      EncOfParseBin(text, pos, o);
    case Ary(kids) =>
      U32Inverse(0, text[pos..pos + 4], o.ImageBig());
      EncOfParseRecs(kids, GetU32(text[pos..pos + 4], o.ImageBig()), text, pos + 4, o);
      assert text[pos..q] == text[pos..pos + 4] + text[pos + 4..q];
  }

  lemma {:induction false} EncOfParseRec(ns: seq<Shape>, w: seq<(nat, nat)>, text: bytes, pos: nat, o: Order)
    requires WfKids(ns) && WalkOk(ns, w) && ParseRec(ns, w, text, pos, o, Strict).Got? && pos <= |text|
    ensures var Got(rec, q) := ParseRec(ns, w, text, pos, o, Strict);
            TypedRec(ns, w, rec) && text[pos..q] == EncRec(ns, w, rec, o)
    decreases ns, 0, |w|
  {
    hide EncCell, ParseCell, TypedCell;
    if w != [] {
      var Got(rec, end) := ParseRec(ns, w, text, pos, o, Strict);
      var q := ParseCell(ns[w[0].0], text, pos, o, Strict).pos;
      EncOfParseCell(ns[w[0].0], text, pos, o);
      EncOfParseRec(ns, w[1..], text, q, o);
      assert rec[1..] == ParseRec(ns, w[1..], text, q, o, Strict).val;
      assert text[pos..end] == text[pos..q] + text[q..end];
    }
  }

  lemma {:induction false} EncOfParseRecs(ns: seq<Shape>, n: nat, text: bytes, pos: nat, o: Order)
    requires WfKids(ns) && ParseRecs(ns, n, text, pos, o, Strict).Got? && pos <= |text|
    ensures var Got(recs, q) := ParseRecs(ns, n, text, pos, o, Strict);
            TypedRecs(ns, recs) && text[pos..q] == EncRecs(ns, recs, o)
    decreases ns, 1, n
  {
    hide EncRec, ParseRec, TypedRec, WalkOk, Walk;
    if n > 0 {
      WalkIsOk(ns);
      var Got(recs, end) := ParseRecs(ns, n, text, pos, o, Strict);
      var q := ParseRec(ns, Walk(ns), text, pos, o, Strict).pos;
      EncOfParseRec(ns, Walk(ns), text, pos, o);
      EncOfParseRecs(ns, n - 1, text, q, o);
      assert recs[1..] == ParseRecs(ns, n - 1, text, q, o, Strict).val;
      assert text[pos..end] == text[pos..q] + text[q..end];
    }
  }
}
