/** Formats as node lists, and the order in which every walker visits the fields of one level. */
module TplFormat {
  import opened Sequences

  /**
   A format node. `Atom` is one of c i u j v I U f, with sz bytes an element and num elements;
   `Str` is s, `Bin` is B, `Ary` is A(...). `Pound` is the node that S(...)# appends behind the
   fields of the structure: it sends the walker back to sibling `start`, num times in all.
   */
  datatype Shape =
    | Atom(sz: nat, num: nat)
    | Str(num: nat)
    | Bin
    | Ary(kids: seq<Shape>)
    | Pound(start: nat, num: nat)

  /** What tpl_map builds for an accepted format. */
  predicate WfShape(s: Shape)
    decreases s, 0
  {
    match s
    case Atom(sz, num) => sz > 0 && num > 0
    case Str(num) => num > 0
    case Bin => true
    case Ary(kids) => kids != [] && WfLevel(kids) && forall k | k in kids :: WfShape(k)
    case Pound(_, num) => num > 0
  }

  /** A `#` loop spans only fields of a structure: atoms and strings. */
  predicate WfLevel(ns: seq<Shape>) {
    forall p | 0 <= p < |ns| && ns[p].Pound? ::
      ns[p].num > 0 && ns[p].start < p && forall c | ns[p].start <= c < p :: ns[c].Atom? || ns[c].Str?
  }

  /** The first `#` node at or after child c, or the end of the level. */
  function NextPound(ns: seq<Shape>, c: nat): (p: nat)
    requires c <= |ns|
    ensures c <= p <= |ns|
    ensures p < |ns| ==> ns[p].Pound?
    ensures forall k | c <= k < p :: !ns[k].Pound?
    decreases |ns| - c
  {
    if c == |ns| || ns[c].Pound? then c else NextPound(ns, c + 1)
  }

  lemma NextPoundIs(ns: seq<Shape>, c: nat, p: nat)
    requires c <= p < |ns| && ns[p].Pound? && forall k | c <= k < p :: !ns[k].Pound?
    ensures NextPound(ns, c) == p
  {
  }

  /** A walker may stand at child c in iteration `it` of the loop it is in. */
  ghost predicate InWalk(ns: seq<Shape>, c: nat, it: nat) {
    c <= |ns| &&
    (it > 0 ==> var p := NextPound(ns, c);
                p < |ns| && ns[p].start <= c && it < ns[p].num)
  }

  ghost function Limit(ns: seq<Shape>, c: nat): nat
    requires c <= |ns|
  {
    var p := NextPound(ns, c);
    if p < |ns| then ns[p].num else 1
  }

  /** Where a walker at a `#` node goes next: back for another iteration, or on with the count reset. */
  function AfterPound(ns: seq<Shape>, c: nat, it: nat): (nat, nat)
    requires c < |ns| && ns[c].Pound?
  {
    if it + 1 < ns[c].num then (ns[c].start, it + 1) else (c + 1, 0)
  }

  lemma AfterPoundInWalk(ns: seq<Shape>, c: nat, it: nat)
    requires WfLevel(ns) && InWalk(ns, c, it) && c < |ns| && ns[c].Pound?
    ensures var (c', it') := AfterPound(ns, c, it);
            && InWalk(ns, c', it')
            && (it' > 0 ==> NextPound(ns, c') == c && Limit(ns, c') == Limit(ns, c) > it')
  {
    if it + 1 < ns[c].num {
      NextPoundIs(ns, ns[c].start, c);
    }
  }

  /** The fields a walker still visits from child c in iteration `it`, as (child, slot) pairs. */
  function Rest(ns: seq<Shape>, c: nat, it: nat): seq<(nat, nat)>
    requires WfLevel(ns) && InWalk(ns, c, it)
    decreases |ns| - NextPound(ns, c), Limit(ns, c) - it, |ns| - c
  {
    if c == |ns| then []
    else if ns[c].Pound? then
      AfterPoundInWalk(ns, c, it);
      Rest(ns, AfterPound(ns, c, it).0, AfterPound(ns, c, it).1)
    else [(c, it)] + Rest(ns, c + 1, it)
  }

  /** The number of nodes, loops included, a walker still handles. */
  ghost function Steps(ns: seq<Shape>, c: nat, it: nat): nat
    requires WfLevel(ns) && InWalk(ns, c, it)
    decreases |ns| - NextPound(ns, c), Limit(ns, c) - it, |ns| - c
  {
    if c == |ns| then 0
    else if ns[c].Pound? then
      AfterPoundInWalk(ns, c, it);
      1 + Steps(ns, AfterPound(ns, c, it).0, AfterPound(ns, c, it).1)
    else 1 + Steps(ns, c + 1, it)
  }

  /** The fields of one level in the order they are packed, dumped, checked and unpacked. */
  function Walk(ns: seq<Shape>): seq<(nat, nat)>
    requires WfLevel(ns)
  {
    Rest(ns, 0, 0)
  }

  /** How many slots a child of the level has: the iterations of the loop over it, or one. */
  function SlotCount(ns: seq<Shape>, c: nat): nat
    requires c < |ns|
  {
    var p := NextPound(ns, c);
    if ns[c].Pound? then 0 else if p < |ns| && ns[p].start <= c then ns[p].num else 1
  }

  /** Slot k of field a comes at or after the point where the walker stands at child c in iteration `it`. */
  ghost predicate Ahead(ns: seq<Shape>, c: nat, it: nat, a: nat, k: nat)
    requires c <= |ns|
  {
    var p := NextPound(ns, c);
    if p < |ns| && ns[p].start <= a < p then k > it || (k == it && a >= c) else a >= c
  }

  /** A walk visits exactly the slots that are ahead. */
  lemma {:induction false} RestVisits(ns: seq<Shape>, c: nat, it: nat, a: nat, k: nat)
    requires WfLevel(ns) && InWalk(ns, c, it)
    ensures (a, k) in Rest(ns, c, it) <==> a < |ns| && k < SlotCount(ns, a) && Ahead(ns, c, it, a, k)
    decreases Steps(ns, c, it)
  {
    if c == |ns| {
    } else if ns[c].Pound? {
      AfterPoundInWalk(ns, c, it);
      var (c', it') := AfterPound(ns, c, it);
      RestVisits(ns, c', it', a, k);
      AheadOfPound(ns, c, it, a, k);
    } else {
      RestVisits(ns, c + 1, it, a, k);
      if a < |ns| && k < SlotCount(ns, a) {
        AheadOfField(ns, c, it, a, k);
      }
    }
  }

  lemma AheadOfField(ns: seq<Shape>, c: nat, it: nat, a: nat, k: nat)
    requires WfLevel(ns) && InWalk(ns, c, it) && c < |ns| && !ns[c].Pound?
    requires a < |ns| && k < SlotCount(ns, a)
    ensures Ahead(ns, c, it, a, k) <==> (a, k) == (c, it) || Ahead(ns, c + 1, it, a, k)
  {
  }

  lemma AheadOfPound(ns: seq<Shape>, c: nat, it: nat, a: nat, k: nat)
    requires WfLevel(ns) && InWalk(ns, c, it) && c < |ns| && ns[c].Pound?
    ensures a < |ns| && k < SlotCount(ns, a) ==>
              (Ahead(ns, c, it, a, k) <==> Ahead(ns, AfterPound(ns, c, it).0, AfterPound(ns, c, it).1, a, k))
  {
    AfterPoundInWalk(ns, c, it);
    if a < |ns| && ns[c].start <= a < c {
      NextPoundIs(ns, a, c);
    }
    if it + 1 == ns[c].num && c + 1 < |ns| {
      var q := NextPound(ns, c + 1);
      if q < |ns| && a < |ns| && ns[q].start <= a < q {
        assert ns[q].start > c;
      }
    }
  }

  lemma {:induction false} RestNoRepeats(ns: seq<Shape>, c: nat, it: nat)
    requires WfLevel(ns) && InWalk(ns, c, it)
    ensures Distinct(Rest(ns, c, it))
    decreases Steps(ns, c, it)
  {
    if c == |ns| {
    } else if ns[c].Pound? {
      AfterPoundInWalk(ns, c, it);
      RestNoRepeats(ns, AfterPound(ns, c, it).0, AfterPound(ns, c, it).1);
    } else {
      RestNoRepeats(ns, c + 1, it);
      RestVisits(ns, c + 1, it, c, it);
    }
  }

  /** A field has a slot for each iteration of the loop it is in, and one if it is in none. */
  lemma SlotsOfField(ns: seq<Shape>, c: nat)
    requires WfLevel(ns) && c < |ns| && !ns[c].Pound?
    ensures forall p | 0 <= p < |ns| && ns[p].Pound? && ns[p].start <= c < p :: SlotCount(ns, c) == ns[p].num
    ensures (forall p | 0 <= p < |ns| && ns[p].Pound? :: !(ns[p].start <= c < p)) ==> SlotCount(ns, c) == 1
  {
    forall p | 0 <= p < |ns| && ns[p].Pound? && ns[p].start <= c < p
      ensures SlotCount(ns, c) == ns[p].num
    {
      NextPoundIs(ns, c, p);
    }
  }

  /** Every slot of every field of a level is visited, and visited once. */
  lemma WalkVisitsEachSlotOnce(ns: seq<Shape>)
    requires WfLevel(ns)
    ensures Distinct(Walk(ns))
    ensures forall a: nat, k: nat :: (a, k) in Walk(ns) <==> a < |ns| && k < SlotCount(ns, a)
  {
    RestNoRepeats(ns, 0, 0);
    forall a: nat, k: nat
      ensures (a, k) in Walk(ns) <==> a < |ns| && k < SlotCount(ns, a)
    {
      RestVisits(ns, 0, 0, a, k);
    }
  }

  /** Both fields are in the loop that # node p closes. */
  ghost predicate InLoop(ns: seq<Shape>, p: nat, a: nat, b: nat) {
    p < |ns| && ns[p].Pound? && ns[p].start <= a < p && ns[p].start <= b < p
  }

  ghost predicate Ordered(ns: seq<Shape>, x: (nat, nat), y: (nat, nat)) {
    && (forall p: nat | InLoop(ns, p, x.0, y.0) :: x.1 < y.1 || (x.1 == y.1 && x.0 < y.0))
    && ((forall p: nat :: !InLoop(ns, p, x.0, y.0)) ==> x.0 < y.0)
  }

  lemma AheadIsLater(ns: seq<Shape>, c: nat, it: nat, a: nat, k: nat)
    requires WfLevel(ns) && c < |ns| && !ns[c].Pound? && a < |ns| && Ahead(ns, c + 1, it, a, k)
    ensures Ordered(ns, (c, it), (a, k))
  {
    var q := NextPound(ns, c + 1);
    forall p: nat | InLoop(ns, p, c, a)
      ensures it < k || (it == k && c < a)
    {
      NextPoundIs(ns, c + 1, p);
    }
    if forall p: nat :: !InLoop(ns, p, c, a) {
      if q < |ns| && ns[q].start <= a < q {
        assert !InLoop(ns, q, c, a);
      }
    }
  }

  lemma {:induction false} RestInOrder(ns: seq<Shape>, c: nat, it: nat)
    requires WfLevel(ns) && InWalk(ns, c, it)
    ensures forall i, j | 0 <= i < j < |Rest(ns, c, it)| :: Ordered(ns, Rest(ns, c, it)[i], Rest(ns, c, it)[j])
    decreases Steps(ns, c, it)
  {
    hide Ordered;
    if c == |ns| {
    } else if ns[c].Pound? {
      AfterPoundInWalk(ns, c, it);
      RestInOrder(ns, AfterPound(ns, c, it).0, AfterPound(ns, c, it).1);
    } else {
      var rest := Rest(ns, c + 1, it);
      RestInOrder(ns, c + 1, it);
      forall j | 0 <= j < |rest|
        ensures Ordered(ns, (c, it), rest[j])
      {
        RestVisits(ns, c + 1, it, rest[j].0, rest[j].1);
        assert (rest[j].0, rest[j].1) == rest[j];
        AheadIsLater(ns, c, it, rest[j].0, rest[j].1);
      }
    }
  }

  /**
   The walk goes from the first field to the last; through the fields of a structure with # it goes once for
   each iteration, and all of them in each.
   */
  lemma WalkInOrder(ns: seq<Shape>, i: nat, j: nat)
    requires WfLevel(ns) && i < j < |Walk(ns)|
    ensures var x, y := Walk(ns)[i], Walk(ns)[j];
            && (forall p | 0 <= p < |ns| && ns[p].Pound? && ns[p].start <= x.0 < p && ns[p].start <= y.0 < p ::
                  x.1 < y.1 || (x.1 == y.1 && x.0 < y.0))
            && ((forall p | 0 <= p < |ns| && ns[p].Pound? ::
                  !(ns[p].start <= x.0 < p && ns[p].start <= y.0 < p)) ==> x.0 < y.0)
  {
    RestInOrder(ns, 0, 0);
    var x, y := Walk(ns)[i], Walk(ns)[j];
    assert Ordered(ns, x, y);
    assert forall p | 0 <= p < |ns| && ns[p].Pound? && ns[p].start <= x.0 < p && ns[p].start <= y.0 < p ::
        InLoop(ns, p, x.0, y.0);
  }
}
