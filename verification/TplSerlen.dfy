/** The walker that computes the serialized length of an image and checks that it stays inside. */
module TplSerlen {
  import opened Bytes
  import opened TplWords
  import opened TplFormat
  import opened TplCodec
  import opened TplNodes

  method SkipAtom(text: bytes, dv0: nat, sz: nat, num: nat, ghost o: Order) returns (ok: bool, dv: nat)
    requires sz > 0 && num > 0
    ensures var r := ParseCell(Atom(sz, num), text, dv0, o, Signed);
            ok == r.Got? && (ok ==> dv == r.pos)
  {
    dv := dv0;
    var fidx := 0;
    while fidx < num
      invariant 0 <= fidx <= num && dv == dv0 + sz * fidx
      invariant fidx == 0 || dv <= |text|
    {
      BlockStep(sz, fidx, num);
      if dv + sz > |text| {
        return false, dv;
      }
      dv := dv + sz;
      fidx := fidx + 1;
    }
    ok := true;
  }

  method SkipStrs(text: bytes, dv0: nat, num: nat, o: Order) returns (ok: bool, dv: nat)
    requires num > 0
    ensures var r := ParseCell(Str(num), text, dv0, o, Signed);
            ok == r.Got? && (ok ==> dv == r.pos)
  {
    hide ParseStr, ParseStrs;
    dv := dv0;
    var fidx := 0;
    StrsToCell(num, text, dv0, o);
    while fidx < num
      invariant 0 <= fidx <= num
      invariant SameEnd(ParseStrs(num, text, dv0, o.ImageBig()), ParseStrs(num - fidx, text, dv, o.ImageBig()))
    {
      StrsStep(num - fidx, text, dv, o.ImageBig());
      ok, dv := SkipStr(text, dv, o);
      if !ok {
        return;
      }
      fidx := fidx + 1;
    }
    StrsEnd(text, dv, o.ImageBig());
    ok := true;
  }

  /** The body of that loop. */
  method SkipStr(text: bytes, dv0: nat, o: Order) returns (ok: bool, dv: nat)
    ensures var r := ParseStr(text, dv0, o.ImageBig());
            ok == r.Got? && (ok ==> dv == r.pos)
  {
    hide GetU32;
    dv := dv0;
    if dv + 4 > |text| {
      return false, dv;
    }
    var slen := ReadU32(text, dv, o.big, o.swap);
    slen := if slen > 1 then slen - 1 else 0;
    dv := dv + 4;
    if dv + slen > |text| {
      return false, dv;
    }
    ok, dv := true, dv + slen;
  }

  lemma StrsStep(n: nat, text: bytes, pos: nat, big: bool)
    requires n > 0
    ensures var first, all := ParseStr(text, pos, big), ParseStrs(n, text, pos, big);
            if first.Got? then SameEnd(all, ParseStrs(n - 1, text, first.pos, big)) else all.Bad?
  {
    hide ParseStr;
  }

  lemma StrsEnd(text: bytes, pos: nat, big: bool)
    ensures ParseStrs(0, text, pos, big) == Got([], pos)
  {
  }

  lemma StrsToCell(num: nat, text: bytes, pos: nat, o: Order)
    requires num > 0
    ensures var r, ss := ParseCell(Str(num), text, pos, o, Signed), ParseStrs(num, text, pos, o.ImageBig());
            r.Got? == ss.Got? && (r.Got? ==> r.pos == ss.pos)
  {
  }

  method SkipBin(text: bytes, dv0: nat, o: Order) returns (ok: bool, dv: nat)
    ensures var r := ParseCell(Bin, text, dv0, o, Signed);
            ok == r.Got? && (ok ==> dv == r.pos)
  {
    dv := dv0;
    if dv + 4 > |text| {
      return false, dv;
    }
    var slen := ReadU32(text, dv, o.big, o.swap);
    dv := dv + 4;
    if dv + slen > |text| {
      return false, dv;
    }
    ok, dv := true, dv + slen;
  }

  ghost predicate SameEnd<T>(a: Parsed<T>, b: Parsed<T>) {
    a.Got? == b.Got? && (a.Got? ==> a.pos == b.pos)
  }

  /** One round over the fields of a level: what the size walker does for the root and for each element. */
  method SerlenLevel(n: TplNode, text: bytes, dv0: nat, o: Order) returns (ok: bool, len: nat)
    requires n.Wf() && n.shape.Ary? && ItersZero(n.repr)
    modifies n.repr`iternum
    ensures var r := ParseRest(n.shape.kids, 0, 0, text, dv0, o, Signed);
            ok == r.Got? && (ok ==> len == r.pos - dv0)
    ensures ok ==> ItersZero(n.repr)
    decreases n.shape, 0
  {
    hide ItersAt, ParseRest, ParseCell, Rest, Steps, InWalk, TplNode.Wf;
    ghost var ns := n.shape.kids;
    var c: nat, dv: nat := 0, dv0;
    var it: nat := 0;
    len := 0;
    WalkStart(n);
    while c < |n.kids|
      invariant c <= |n.kids| == |ns| && InWalk(ns, c, it) && ItersAt(n, c, it)
      invariant dv == dv0 + len
      invariant SameEnd(ParseRest(ns, 0, 0, text, dv0, o, Signed), ParseRest(ns, c, it, text, dv, o, Signed))
      decreases Steps(ns, c, it)
    {
      KidInRepr(n, c);
      var kid := n.kids[c];
      if kid.shape.Pound? {
        ghost var c0, it0 := c, it;
        c, it := PoundStep(n, c, it);
        ParseRestSame(ns, c0, it0, c, it, text, dv, o, Signed);
      } else {
        ParseRestField(ns, c, it, text, dv, o, Signed);
        FieldAhead(ns, c, it);
        ItersField(n, c, it);
        var good, dv';
        match kid.shape {
          case Atom(sz, num) =>
            good, dv' := SkipAtom(text, dv, sz, num, o);
          case Bin =>
            good, dv' := SkipBin(text, dv, o);
          case Str(num) =>
            good, dv' := SkipStrs(text, dv, num, o);
          case Ary(_) =>
            var alen;
            ItersOfZero(n, c);
            good, alen := Serlen(kid, text, dv, o);
            dv' := dv + alen;
            assert good ==> ItersZero(n.repr);
            if good {
              ItersOfZero(n, c + 1);
            }
        }
        if !good {
          return false, len;
        }
        len := len + (dv' - dv);
        dv := dv';
        c := c + 1;
      }
    }
    ItersAtEnd(n, it);
    ParseRestEnds(ns, it, text, dv, o, Signed);
    ok := true;
  }

  /** The size walker at an array: its count word, then that many elements. */
  method Serlen(n: TplNode, text: bytes, dv0: nat, o: Order) returns (ok: bool, len: nat)
    requires n.Wf() && n.shape.Ary? && ItersZero(n.repr)
    modifies n.repr`iternum
    ensures var r := ParseCell(n.shape, text, dv0, o, Signed);
            ok == r.Got? && (ok ==> len == r.pos - dv0)
    ensures ok ==> ItersZero(n.repr)
    decreases n.shape, 1
  {
    var dv := dv0;
    len := 0;
    if dv + 4 > |text| {
      return false, len;
    }
    var word := ReadU32(text, dv, o.big, o.swap);
    var num: int := if word >= TWO_31 then word - TWO_32 else word;
    dv := dv + 4;
    len := len + 4;
    ghost var all := ParseRecs(n.shape.kids, if num > 0 then num else 0, text, dv, o, Signed);
    while num > 0
      invariant ItersZero(n.repr) && dv == dv0 + len
      invariant SameEnd(all, ParseRecs(n.shape.kids, if num > 0 then num else 0, text, dv, o, Signed))
      decreases num
    {
      num := num - 1;
      var good, l := SerlenLevel(n, text, dv, o);
      if !good {
        return false, len;
      }
      dv := dv + l;
      len := len + l;
    }
    ok := true;
  }
}
