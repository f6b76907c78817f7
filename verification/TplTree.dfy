/** The tree of nodes that tpl_map makes for a format, its arrays in order, and emptying it again. */
module TplTree {
  import opened Sequences
  import opened TplFormat
  import opened TplCodec
  import opened TplNodes

  /** The arrays below a format node in the order in which its text opens them. */
  function ArrayShapes(s: Shape): seq<Shape> {
    if s.Ary? then ArraysIn(s.kids) else []
  }

  function ArraysIn(ks: seq<Shape>): seq<Shape> {
    if ks == [] then []
    else (if ks[0].Ary? then [ks[0]] + ArrayShapes(ks[0]) else []) + ArraysIn(ks[1..])
  }

  ghost function ShapesOf(nodes: seq<TplNode>): (r: seq<Shape>)
    ensures |r| == |nodes|
  {
    seq(|nodes|, i requires 0 <= i < |nodes| => nodes[i].shape)
  }

  ghost predicate ArrayBelow(all: set<TplNode>, a: TplNode) {
    a in all && a.repr <= all && a.Wf() && a.shape.Ary?
  }

  /** The arrays among these nodes are in the list. */
  ghost predicate Listed(kids: seq<TplNode>, arrays: seq<TplNode>) {
    forall c | 0 <= c < |kids| && kids[c].shape.Ary? :: kids[c] in arrays
  }

  /** These are nodes for arrays, each once, with the arrays below them. */
  ghost predicate ArrayList(all: set<TplNode>, arrays: seq<TplNode>) {
    && (forall a | a in arrays :: ArrayBelow(all, a) && Listed(a.kids, arrays))
    && Distinct(arrays)
  }

  /** The list has all arrays of the tree, in format order. */
  ghost predicate ArraysOf(n: TplNode, arrays: seq<TplNode>) {
    && ArrayList(n.repr - {n}, arrays)
    && Listed(n.kids, arrays)
    && ShapesOf(arrays) == ArrayShapes(n.shape)
  }

  /** Arrays below an earlier child stand before those below a later one. */
  ghost predicate Ordered(kids: seq<TplNode>, arrays: seq<TplNode>) {
    forall i, j, c, d | 0 <= i < |arrays| && 0 <= j < |arrays| && 0 <= c < d < |kids| ::
      arrays[i] in kids[c].repr && arrays[j] in kids[d].repr ==> i < j
  }

  /** An array stands before the arrays below it. */
  ghost predicate OuterFirst(arrays: seq<TplNode>) {
    forall i, j | 0 <= i < |arrays| && 0 <= j < |arrays| && arrays[j] in arrays[i].repr :: i <= j
  }

  /** The arrays stand as the text of the format opens them. */
  ghost predicate InFormatOrder(kids: seq<TplNode>, arrays: seq<TplNode>) {
    Ordered(kids, arrays) && OuterFirst(arrays) && forall a | a in arrays :: Ordered(a.kids, arrays)
  }

  ghost predicate Emptied(a: TplNode)
    reads a
  {
    a.serOsz == 0 && a.num == 0 && a.bb == [] && a.cur == None
  }

  ghost predicate Fresh(s: set<TplNode>)
    reads s
  {
    forall x | x in s :: Emptied(x) && x.iternum == 0 && x.data == []
  }

  /** Children made so far: disjoint well-formed trees. */
  ghost predicate Forest(kids: seq<TplNode>, ks: seq<Shape>, all: set<TplNode>) {
    && |kids| <= |ks|
    && (forall c | 0 <= c < |kids| :: kids[c].shape == ks[c] && kids[c].Wf() && kids[c].repr <= all)
    && (forall c, d | 0 <= c < d < |kids| :: kids[c].repr !! kids[d].repr)
    && (forall x | x in all :: OfSome(kids, x))
  }

  lemma ForestGrows(kids: seq<TplNode>, ks: seq<Shape>, all: set<TplNode>, k: TplNode)
    requires Forest(kids, ks, all) && |kids| < |ks|
    requires k.Wf() && k.shape == ks[|kids|] && k.repr !! all
    ensures Forest(kids + [k], ks, all + k.repr)
  {
    hide TplNode.Wf;
    var kids' := kids + [k];
    assert forall c | 0 <= c < |kids| :: kids'[c] == kids[c];
    forall c, d | 0 <= c < d < |kids'|
      ensures kids'[c].repr !! kids'[d].repr
    {
      if d == |kids| {
        assert kids[c].repr <= all;
      }
    }
    forall x | x in all + k.repr
      ensures OfSome(kids', x)
    {
      if x in k.repr {
        assert kids'[|kids|] == k;
      } else {
        var c :| 0 <= c < |kids| && x in kids[c].repr;
        assert kids'[c] == kids[c];
      }
    }
  }

  lemma ListGrows(all: set<TplNode>, arrays: seq<TplNode>, k: TplNode, below: seq<TplNode>)
    requires ArrayList(all, arrays) && k.Wf() && k.repr !! all && k.shape.Ary? && ArraysOf(k, below)
    ensures ArrayList(all + k.repr, arrays + ([k] + below))
  {
    hide TplNode.Wf;
    var next := arrays + ([k] + below);
    KidsDistinct(k);
    SelfInRepr(k);
    forall a | a in next
      ensures ArrayBelow(all + k.repr, a) && Listed(a.kids, next)
    {
      if a in arrays {
        assert Listed(a.kids, arrays);
      } else if a in below {
        assert Listed(a.kids, below);
      }
    }
    forall i, j | 0 <= i < j < |next|
      ensures next[i] != next[j]
    {
      if i < |arrays| {
        assert next[i] == arrays[i] && next[i] in arrays && ArrayBelow(all, next[i]);
        if j < |arrays| {
          assert next[j] == arrays[j];
        } else if j > |arrays| {
          assert next[j] == below[j - |arrays| - 1] && next[j] in below && ArrayBelow(k.repr - {k}, next[j]);
        }
      } else {
        assert next[j] == below[j - |arrays| - 1] && next[j] in below && ArrayBelow(k.repr - {k}, next[j]);
        if i > |arrays| {
          assert next[i] == below[i - |arrays| - 1];
        }
      }
    }
  }

  /** Which of the listed arrays are new. */
  lemma NewOnes(all: set<TplNode>, arrays: seq<TplNode>, k: TplNode, below: seq<TplNode>, i: nat)
    requires ArrayList(all, arrays) && k.Wf() && k.repr !! all && k.shape.Ary? && ArraysOf(k, below)
    requires i < |arrays + ([k] + below)|
    ensures var a := (arrays + ([k] + below))[i];
            && (i < |arrays| ==> a == arrays[i] && a in all && a.repr <= all && a.Wf() && a.shape.Ary?)
            && (i == |arrays| ==> a == k && a in k.repr)
            && (i > |arrays| ==> a == below[i - |arrays| - 1] && a in k.repr && a != k && a.repr <= k.repr - {k} &&
                                 a.Wf() && a.shape.Ary?)
  {
    hide TplNode.Wf;
    SelfInRepr(k);
    if i < |arrays| {
      assert arrays[i] in arrays && ArrayBelow(all, arrays[i]);
      SelfInRepr(arrays[i]);
    } else if i > |arrays| {
      var a := below[i - |arrays| - 1];
      assert a in below && ArrayBelow(k.repr - {k}, a);
      SelfInRepr(a);
    }
  }

  lemma OrderedGrows(kids: seq<TplNode>, ks: seq<Shape>, all: set<TplNode>, arrays: seq<TplNode>, k: TplNode,
                     below: seq<TplNode>)
    requires Forest(kids, ks, all) && ArrayList(all, arrays) && Ordered(kids, arrays)
    requires k.Wf() && k.repr !! all && k.shape.Ary? && ArraysOf(k, below)
    ensures Ordered(kids + [k], arrays + ([k] + below))
  {
    hide TplNode.Wf, ArrayList, ArraysOf;
    var next, kids' := arrays + ([k] + below), kids + [k];
    forall i, j, c, d | 0 <= i < |next| && 0 <= j < |next| && 0 <= c < d < |kids'|
                        && next[i] in kids'[c].repr && next[j] in kids'[d].repr
      ensures i < j
    {
      NewOnes(all, arrays, k, below, i);
      NewOnes(all, arrays, k, below, j);
      assert kids'[c] == kids[c] && kids[c].repr <= all;
      assert d < |kids| ==> kids'[d] == kids[d] && kids[d].repr <= all;
    }
  }

  /** Arrays that are not below these children do not matter. */
  lemma OrderedAmong(kids: seq<TplNode>, arrays: seq<TplNode>, before: seq<TplNode>, after: seq<TplNode>)
    requires Ordered(kids, arrays)
    requires forall x, c | 0 <= c < |kids| && (x in before || x in after) :: x !in kids[c].repr
    ensures Ordered(kids, before + (arrays + after))
  {
    var next := before + (arrays + after);
    forall i, j, c, d | 0 <= i < |next| && 0 <= j < |next| && 0 <= c < d < |kids|
                        && next[i] in kids[c].repr && next[j] in kids[d].repr
      ensures i < j
    {
      InMiddle(before, arrays, after, i);
      InMiddle(before, arrays, after, j);
    }
  }

  lemma InMiddle<T>(a: seq<T>, b: seq<T>, c: seq<T>, i: nat)
    requires i < |a + (b + c)|
    ensures var x := (a + (b + c))[i];
            x in a || (|a| <= i < |a| + |b| && x == b[i - |a|]) || x in c
  {
  }

  lemma OuterFirstGrows(all: set<TplNode>, arrays: seq<TplNode>, k: TplNode, below: seq<TplNode>)
    requires ArrayList(all, arrays) && k.Wf() && k.repr !! all && k.shape.Ary? && ArraysOf(k, below)
    requires OuterFirst(arrays) && OuterFirst(below)
    ensures OuterFirst(arrays + ([k] + below))
  {
    hide TplNode.Wf, ArrayList, ArraysOf;
    var next := arrays + ([k] + below);
    forall i, j | 0 <= i < |next| && 0 <= j < |next| && next[j] in next[i].repr
      ensures i <= j
    {
      NewOnes(all, arrays, k, below, i);
      NewOnes(all, arrays, k, below, j);
    }
  }

  /** One more array behind the others, with those below it. */
  lemma OrderGrows(kids: seq<TplNode>, ks: seq<Shape>, all: set<TplNode>, arrays: seq<TplNode>, k: TplNode,
                   below: seq<TplNode>)
    requires Forest(kids, ks, all) && ArrayList(all, arrays) && InFormatOrder(kids, arrays)
    requires k.Wf() && k.repr !! all && k.shape.Ary? && ArraysOf(k, below) && InFormatOrder(k.kids, below)
    ensures InFormatOrder(kids + [k], arrays + ([k] + below))
  {
    hide TplNode.Wf, Forest, ArrayList, ArraysOf, Ordered, OuterFirst;
    var next := arrays + ([k] + below);
    OuterFirstGrows(all, arrays, k, below);
    OrderedGrows(kids, ks, all, arrays, k, below);
    forall a | a in next
      ensures Ordered(a.kids, next)
    {
      var i :| 0 <= i < |next| && next[i] == a;
      NewOnes(all, arrays, k, below, i);
      if i < |arrays| {
        AfterOld(all, arrays, k, below, a);
      } else {
        AmongNew(all, arrays, k, below, a);
      }
    }
  }

  /** A child that is no array changes no order. */
  lemma LeafIsLast(kids: seq<TplNode>, ks: seq<Shape>, all: set<TplNode>, arrays: seq<TplNode>, k: TplNode)
    requires Forest(kids, ks, all) && ArrayList(all, arrays) && InFormatOrder(kids, arrays) && k.repr !! all
    ensures InFormatOrder(kids + [k], arrays)
  {
    hide TplNode.Wf;
    var kids' := kids + [k];
    forall i, j, c, d | 0 <= i < |arrays| && 0 <= j < |arrays| && 0 <= c < d < |kids'|
                        && arrays[i] in kids'[c].repr && arrays[j] in kids'[d].repr
      ensures i < j
    {
      assert arrays[j] in arrays && ArrayBelow(all, arrays[j]);
      SelfInRepr(arrays[j]);
    }
  }

  lemma AfterOld(all: set<TplNode>, arrays: seq<TplNode>, k: TplNode, below: seq<TplNode>, a: TplNode)
    requires ArrayList(all, arrays) && k.Wf() && k.repr !! all && k.shape.Ary? && ArraysOf(k, below)
    requires Ordered(a.kids, arrays) && a.repr <= all && a.Wf() && a.shape.Ary?
    ensures Ordered(a.kids, arrays + ([k] + below))
  {
    hide TplNode.Wf, ArrayList, ArraysOf, Ordered;
    var next := arrays + ([k] + below);
    forall x, c | 0 <= c < |a.kids| && x in [k] + below
      ensures x !in a.kids[c].repr
    {
      KidsDisjoint(a);
      var i :| 0 <= i < |[k] + below| && ([k] + below)[i] == x;
      NewOnes(all, arrays, k, below, |arrays| + i);
    }
    OrderedAmong(a.kids, arrays, [], [k] + below);
    assert [] + next == next;
  }

  lemma AmongNew(all: set<TplNode>, arrays: seq<TplNode>, k: TplNode, below: seq<TplNode>, a: TplNode)
    requires ArrayList(all, arrays) && k.Wf() && k.repr !! all && k.shape.Ary? && ArraysOf(k, below)
    requires Ordered(a.kids, below) && (a == k || a.repr <= k.repr - {k}) && a.Wf() && a.shape.Ary?
    ensures Ordered(a.kids, arrays + ([k] + below))
  {
    hide TplNode.Wf, ArrayList, ArraysOf, Ordered;
    var next, before := arrays + ([k] + below), arrays + [k];
    forall x, c | 0 <= c < |a.kids| && x in before
      ensures x !in a.kids[c].repr
    {
      KidsDisjoint(a);
      var i :| 0 <= i < |before| && before[i] == x;
      NewOnes(all, arrays, k, below, i);
      assert next[i] == x;
    }
    OrderedAmong(a.kids, below, before, []);
    assert before + (below + []) == next;
  }

  lemma ListWider(all: set<TplNode>, wide: set<TplNode>, arrays: seq<TplNode>)
    requires ArrayList(all, arrays) && all <= wide
    ensures ArrayList(wide, arrays)
  {
  }

  lemma SelfInRepr(n: TplNode)
    requires n.Wf()
    ensures n in n.repr
  {
  }

  /** Nodes for a format, and the index of its arrays. */
  method Build(s: Shape) returns (n: TplNode, arrays: seq<TplNode>)
    requires WfShape(s)
    ensures fresh(n.repr) && n.Wf() && n.shape == s && Fresh(n.repr)
    ensures s.Ary? ==> ArraysOf(n, arrays) && InFormatOrder(n.kids, arrays)
    decreases s
  {
    hide TplNode.Wf, Forest, ArrayList, InFormatOrder;
    var kids: seq<TplNode> := [];
    arrays := [];
    ghost var all: set<TplNode> := {};
    if s.Ary? {
      kids, arrays, all := BuildKids(s.kids);
    }
    n := new TplNode(s, kids, all);
    assert n.repr - {n} == all;
    TreeIsWf(n, all);
  }

  lemma TreeIsWf(n: TplNode, all: set<TplNode>)
    requires WfShape(n.shape) && n.repr == all + {n} && n !in all
    requires if n.shape.Ary? then |n.kids| == |n.shape.kids| && Forest(n.kids, n.shape.kids, all)
             else n.kids == [] && all == {}
    ensures n.Wf()
  {
    if n.shape.Ary? {
      assert forall c | 0 <= c < |n.kids| :: n.kids[c].shape == n.shape.kids[c] && n.kids[c].Wf()
                                             && n !in n.kids[c].repr && n.kids[c].repr <= n.repr;
    }
  }

  method BuildKids(ks: seq<Shape>) returns (kids: seq<TplNode>, arrays: seq<TplNode>, ghost all: set<TplNode>)
    requires forall k | k in ks :: WfShape(k)
    ensures fresh(all) && Fresh(all) && |kids| == |ks| && Forest(kids, ks, all)
    ensures ArrayList(all, arrays) && ShapesOf(arrays) == ArraysIn(ks)
    ensures Listed(kids, arrays) && InFormatOrder(kids, arrays)
    decreases ks
  {
    hide TplNode.Wf, Forest, ArrayList, ShapesOf, Listed, ArraysIn, ArrayShapes, InFormatOrder;
    kids, arrays, all := [], [], {};
    NothingYet(ks);
    while |kids| < |ks|
      invariant |kids| <= |ks| && fresh(all) && Fresh(all) && Forest(kids, ks, all) && ArrayList(all, arrays)
      invariant ShapesOf(arrays) + ArraysIn(ks[|kids|..]) == ArraysIn(ks)
      invariant Listed(kids, arrays) && InFormatOrder(kids, arrays)
    {
      var k, below := Build(ks[|kids|]);
      ForestGrows(kids, ks, all, k);
      NextArrays(ks, |kids|);
      ListWider(all, all + k.repr, arrays);
      if !k.shape.Ary? {
        ListedGrows(kids, arrays, k, []);
        LeafIsLast(kids, ks, all, arrays, k);
      } else {
        OrderGrows(kids, ks, all, arrays, k, below);
        ListGrows(all, arrays, k, below);
        ShapesJoin(arrays, k, below);
        ListedGrows(kids, arrays, k, [k] + below);
        arrays := arrays + ([k] + below);
      }
      kids := kids + [k];
      all := all + k.repr;
    }
    assert ks[|ks|..] == [] && ArraysIn([]) == [] && ShapesOf(arrays) + [] == ShapesOf(arrays) by { NoArrays(); }
  }

  lemma NoArrays()
    ensures ArraysIn([]) == []
  {
  }

  lemma ListedGrows(kids: seq<TplNode>, arrays: seq<TplNode>, k: TplNode, more: seq<TplNode>)
    requires Listed(kids, arrays)
    ensures Listed(kids, arrays + more)
    ensures k.shape.Ary? && k in arrays + more ==> Listed(kids + [k], arrays + more)
    ensures !k.shape.Ary? ==> Listed(kids + [k], arrays)
  {
  }

  lemma ShapesJoin(arrays: seq<TplNode>, k: TplNode, below: seq<TplNode>)
    ensures ShapesOf(arrays + ([k] + below)) == ShapesOf(arrays) + ([k.shape] + ShapesOf(below))
  {
  }

  lemma NextArrays(ks: seq<Shape>, i: nat)
    requires i < |ks|
    ensures ArraysIn(ks[i..]) == (if ks[i].Ary? then [ks[i]] + ArrayShapes(ks[i]) else []) + ArraysIn(ks[i + 1..])
  {
    assert ks[i..][1..] == ks[i + 1..];
  }

  lemma NothingYet(ks: seq<Shape>)
    ensures Forest([], ks, {}) && ArrayList({}, []) && Listed([], []) && InFormatOrder([], []) &&
            ShapesOf([]) + ArraysIn(ks[0..]) == ArraysIn(ks)
  {
    assert ks[0..] == ks;
  }

  ghost predicate AllEmptied(s: set<TplNode>)
    reads s
  {
    forall x | x in s && x.shape.Ary? :: Emptied(x)
  }

  lemma KidsDisjoint(n: TplNode)
    requires n.Wf() && n.shape.Ary?
    ensures n in n.repr
    ensures forall c | 0 <= c < |n.kids| :: n !in n.kids[c].repr && n.kids[c].repr <= n.repr && n.kids[c].Wf()
    ensures forall c, d | 0 <= c < d < |n.kids| :: n.kids[c].repr !! n.kids[d].repr
    ensures forall c | 0 <= c < |n.kids| && n.kids[c].shape.Ary? :: n.kids[c].shape < n.shape
  {
    KidsDistinct(n);
  }

  lemma LeafEmptied(n: TplNode)
    requires n.Wf() && !n.shape.Ary?
    ensures AllEmptied(n.repr)
  {
  }

  lemma TreeEmptied(n: TplNode)
    requires n.Wf() && n.shape.Ary? && Emptied(n)
    requires forall c | 0 <= c < |n.kids| :: AllEmptied(n.kids[c].repr)
    ensures AllEmptied(n.repr)
  {
    hide Emptied;
    forall x | x in n.repr && x != n && x.shape.Ary?
      ensures Emptied(x)
    {
      assert OfSome(n.kids, x);
    }
  }

  /** The part of tpl_free_keep_map that empties an array and all arrays below it. */
  method EmptyArrays(n: TplNode)
    requires n.Wf() && n.shape.Ary?
    modifies n.repr`serOsz, n.repr`num, n.repr`bb, n.repr`cur
    ensures AllEmptied(n.repr)
    decreases n.shape
  {
    hide TplNode.Wf, AllEmptied;
    KidsDisjoint(n);
    n.serOsz, n.num, n.bb, n.cur := 0, 0, [], None;
    var c := 0;
    while c < |n.kids|
      invariant 0 <= c <= |n.kids| && Emptied(n)
      invariant forall d | 0 <= d < c :: AllEmptied(n.kids[d].repr)
    {
      if n.kids[c].shape.Ary? {
        EmptyArrays(n.kids[c]);
      } else {
        LeafEmptied(n.kids[c]);
      }
      c := c + 1;
    }
    TreeEmptied(n);
  }
}
