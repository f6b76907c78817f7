/** The node tree that tpl_map builds, its loop counters, and the walker that checks sizes. */
module TplNodes {
  import opened Bytes
  import opened TplFormat
  import opened TplCodec

  ghost predicate OfSome(kids: seq<TplNode>, x: TplNode) {
    exists c | 0 <= c < |kids| :: x in kids[c].repr
  }

  class TplNode {
    const shape: Shape
    const kids: seq<TplNode>
    /** This node and all nodes below it. */
    ghost const repr: set<TplNode>
    /** Loop counter of a `#` node. */
    var iternum: nat
    /** Array state: packed size, element count, packed elements, and the read position in a loaded image. */
    var serOsz: nat
    var num: nat
    var bb: seq<Record>
    var cur: Option<nat>
    /** Packed values of a field of the root, one for each slot. */
    var data: seq<Cell>

    constructor (shape: Shape, kids: seq<TplNode>, ghost repr: set<TplNode>)
      ensures this.shape == shape && this.kids == kids && this.repr == repr + {this}
      ensures iternum == 0 && serOsz == 0 && num == 0 && bb == [] && cur == None && data == []
    {
      this.shape, this.kids := shape, kids;
      this.repr := repr + {this};
      iternum, serOsz, num, bb, cur, data := 0, 0, 0, [], None, [];
    }

    /** The tree has the shape of the format and shares no nodes. */
    ghost predicate Wf()
      decreases shape
    {
      && WfShape(shape) && this in repr
      && match shape
         case Ary(ks) =>
           && |kids| == |ks|
           && (forall c | 0 <= c < |kids| :: kids[c].shape == ks[c] && kids[c].Wf()
                                             && this !in kids[c].repr && kids[c].repr <= repr)
           && (forall c, d | 0 <= c < d < |kids| :: kids[c].repr !! kids[d].repr)
           && (forall x | x in repr :: x == this || OfSome(kids, x))
         case _ => kids == [] && repr == {this}
    }
  }

  ghost predicate ItersZero(s: set<TplNode>)
    reads s`iternum
  {
    forall x | x in s :: x.iternum == 0
  }

  /** While a level is walked only the counter of the loop ahead is running. */
  ghost predicate ItersAt(n: TplNode, c: nat, it: nat)
    requires n.Wf() && n.shape.Ary? && c <= |n.kids|
    reads n.repr`iternum
  {
    var p := NextPound(n.shape.kids, c);
    forall x | x in n.repr :: x.iternum == if p < |n.kids| && x == n.kids[p] then it else 0
  }

  lemma KidInRepr(n: TplNode, c: nat)
    requires n.Wf() && n.shape.Ary? && c < |n.kids|
    ensures |n.kids| == |n.shape.kids| && n.kids[c].shape == n.shape.kids[c] && n.kids[c].Wf()
    ensures WfKids(n.shape.kids) && WfShape(n.shape.kids[c])
    ensures n.kids[c].repr <= n.repr && n !in n.kids[c].repr
    ensures n.kids[c] in n.repr && n.kids[c] in n.kids[c].repr
    ensures forall d | 0 <= d < |n.kids| && n.kids[d] == n.kids[c] :: d == c
  {
  }

  lemma KidsDistinct(n: TplNode)
    requires n.Wf() && n.shape.Ary?
    ensures |n.kids| == |n.shape.kids|
    ensures forall c | 0 <= c < |n.kids| :: n.kids[c] != n && n.kids[c].Wf() && n.kids[c].shape == n.shape.kids[c]
    ensures forall c, d | 0 <= c < d < |n.kids| :: n.kids[c] != n.kids[d]
  {
    forall c | 0 <= c < |n.kids|
      ensures n.kids[c] in n.kids[c].repr
    {
      KidInRepr(n, c);
    }
  }

  /**
   The block every walker runs at a `#` node: count, and jump back or reset and go on. `it` is the
   slot to which the address and data pointers of the fields in the loop have been advanced.
   */
  method PoundStep(n: TplNode, c: nat, it: nat) returns (c': nat, it': nat)
    requires n.Wf() && n.shape.Ary? && c < |n.kids| && n.kids[c].shape.Pound?
    requires InWalk(n.shape.kids, c, it) && ItersAt(n, c, it)
    modifies n.repr`iternum
    ensures c' <= |n.kids| && InWalk(n.shape.kids, c', it') && ItersAt(n, c', it')
    ensures Rest(n.shape.kids, c', it') == Rest(n.shape.kids, c, it)
    ensures Steps(n.shape.kids, c', it') < Steps(n.shape.kids, c, it)
    ensures c' <= c + 1 && forall d | c' <= d <= c :: !n.kids[d].shape.Ary?
  {
    hide Rest, Steps, InWalk, TplNode.Wf, NextPound;
    KidsDistinct(n);
    KidInRepr(n, c);
    PoundAhead(n.shape.kids, c, it);
    var pd := n.kids[c];
    pd.iternum := pd.iternum + 1;
    if pd.iternum < pd.shape.num {
      c', it' := pd.shape.start, it + 1;
    } else {
      pd.iternum := 0;
      c', it' := c + 1, 0;
    }
  }

  lemma PoundAhead(ns: seq<Shape>, c: nat, it: nat)
    requires WfLevel(ns) && InWalk(ns, c, it) && c < |ns| && ns[c].Pound?
    ensures NextPound(ns, c) == c
    ensures var (c', it') := AfterPound(ns, c, it);
            && InWalk(ns, c', it')
            && (it' > 0 ==> NextPound(ns, c') == c)
            && Rest(ns, c', it') == Rest(ns, c, it)
            && Steps(ns, c', it') < Steps(ns, c, it)
            && c' <= c + 1 && forall d | c' <= d <= c :: !ns[d].Ary?
  {
    AfterPoundInWalk(ns, c, it);
  }

  /** At a field the walk visits it and goes on to the next sibling. */
  lemma FieldAhead(ns: seq<Shape>, c: nat, it: nat)
    requires WfLevel(ns) && InWalk(ns, c, it) && c < |ns| && !ns[c].Pound?
    ensures InWalk(ns, c + 1, it) && NextPound(ns, c + 1) == NextPound(ns, c)
    ensures Rest(ns, c, it) == [(c, it)] + Rest(ns, c + 1, it)
    ensures Steps(ns, c + 1, it) < Steps(ns, c, it)
    ensures ns[c].Ary? || ns[c].Bin? ==> it == 0
  {
  }

  lemma {:induction false} RestIsOk(ns: seq<Shape>, c: nat, it: nat)
    requires WfLevel(ns) && InWalk(ns, c, it)
    ensures WalkOk(ns, Rest(ns, c, it))
    decreases Steps(ns, c, it)
  {
    if c < |ns| {
      if ns[c].Pound? {
        PoundAhead(ns, c, it);
        RestIsOk(ns, AfterPound(ns, c, it).0, AfterPound(ns, c, it).1);
      } else {
        FieldAhead(ns, c, it);
        RestIsOk(ns, c + 1, it);
      }
    }
  }

  /** The image content of a level from where a walker stands. */
  ghost function ParseRest(ns: seq<Shape>, c: nat, it: nat, text: bytes, pos: nat, o: Order,
                           mode: CountMode): (r: Parsed<Record>)
    requires WfKids(ns) && InWalk(ns, c, it)
    ensures r.Got? ==> pos <= r.pos
  {
    RestIsOk(ns, c, it);
    ParseRec(ns, Rest(ns, c, it), text, pos, o, mode)
  }

  lemma ParseRestField(ns: seq<Shape>, c: nat, it: nat, text: bytes, pos: nat, o: Order, mode: CountMode)
    requires WfKids(ns) && InWalk(ns, c, it) && c < |ns| && !ns[c].Pound?
    ensures InWalk(ns, c + 1, it)
    ensures var r := ParseCell(ns[c], text, pos, o, mode);
            var all := ParseRest(ns, c, it, text, pos, o, mode);
            if r.Bad? then all.Bad?
            else
              var rest := ParseRest(ns, c + 1, it, text, r.pos, o, mode);
              all == if rest.Bad? then Bad else Got([r.val] + rest.val, rest.pos)
  {
    hide Rest, ParseCell;
    FieldAhead(ns, c, it);
    RestIsOk(ns, c, it);
    RestIsOk(ns, c + 1, it);
    assert Rest(ns, c, it)[1..] == Rest(ns, c + 1, it);
  }

  lemma ParseRestEnds(ns: seq<Shape>, it: nat, text: bytes, pos: nat, o: Order, mode: CountMode)
    requires WfKids(ns) && InWalk(ns, |ns|, it)
    ensures ParseRest(ns, |ns|, it, text, pos, o, mode) == Got([], pos)
  {
  }

  lemma ParseRestSame(ns: seq<Shape>, c: nat, it: nat, c': nat, it': nat, text: bytes, pos: nat, o: Order,
                      mode: CountMode)
    requires WfKids(ns) && InWalk(ns, c, it) && InWalk(ns, c', it') && Rest(ns, c, it) == Rest(ns, c', it')
    ensures ParseRest(ns, c, it, text, pos, o, mode) == ParseRest(ns, c', it', text, pos, o, mode)
  {
  }

  lemma WalkStart(n: TplNode)
    requires n.Wf() && n.shape.Ary? && ItersZero(n.repr)
    ensures |n.kids| == |n.shape.kids| && WfShape(n.shape) && WfKids(n.shape.kids)
    ensures InWalk(n.shape.kids, 0, 0) && ItersAt(n, 0, 0)
  {
  }

  lemma ItersOfZero(n: TplNode, c: nat)
    requires n.Wf() && n.shape.Ary? && c <= |n.kids| && (ItersZero(n.repr) || ItersAt(n, c, 0))
    ensures ItersAt(n, c, 0) && ItersZero(n.repr)
    ensures forall d | 0 <= d < |n.kids| :: ItersZero(n.kids[d].repr)
  {
  }

  lemma ItersField(n: TplNode, c: nat, it: nat)
    requires n.Wf() && n.shape.Ary? && c < |n.kids| && !n.kids[c].shape.Pound? && ItersAt(n, c, it)
    ensures ItersAt(n, c + 1, it)
  {
  }

  lemma ItersAtEnd(n: TplNode, it: nat)
    requires n.Wf() && n.shape.Ary? && ItersAt(n, |n.kids|, it)
    ensures ItersZero(n.repr)
  {
  }
}
