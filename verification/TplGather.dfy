/** Reassembly of images from a byte stream that arrives in pieces. */
module TplGather {
  import opened Bytes
  import opened TplWords
  import opened TplCodec
  import opened TplPack
  import opened TplImage

  /** How a scan over gathered bytes ends: with a rest to keep, or for good. */
  datatype End = Rest(left: bytes) | BadPrefix | Aborted | Endless

  /** The application's answer to the images delivered so far; a negative one closes the source. */
  type Callback = seq<bytes> -> int

  function HeaderLength(s: bytes): (n: nat)
    requires |s| > 8
    ensures n < TWO_32
  {
    GetU32(s[4..8], s[3] % 2 == 1)
  }

  /** What the scan finds at the front of the bytes: too little, no image, or an image of n bytes. */
  datatype Next = Wait | NotTpl | Take(n: nat)

  function NextImage(s: bytes): (next: Next)
    ensures next.Take? ==> next.n <= |s|
  {
    if |s| <= 8 then Wait
    else if s[..3] != MAGIC then NotTpl
    else if HeaderLength(s) <= |s| then Take(HeaderLength(s)) else Wait
  }

  /** The k deliveries of an image of length 0. */
  ghost function Empties(k: nat): (r: seq<bytes>)
    ensures |r| == k
  {
    seq(k, _ => [])
  }

  /** However often it is handed an empty image from here on, the application does not close the source. */
  ghost predicate NeverCloses(seen: seq<bytes>, cb: Callback) {
    forall k: nat | k > 0 :: cb(seen + Empties(k)) >= 0
  }

  /** At the k-th empty image the application closes the source. */
  ghost predicate ClosesAt(seen: seq<bytes>, cb: Callback, k: nat) {
    k > 0 && cb(seen + Empties(k)) < 0 && forall j: nat | 0 < j < k :: cb(seen + Empties(j)) >= 0
  }

  ghost function Patience(seen: seq<bytes>, cb: Callback): (k: nat)
    requires !NeverCloses(seen, cb)
    ensures ClosesAt(seen, cb, k)
  {
    var j: nat :| j > 0 && cb(seen + Empties(j)) < 0;
    LeastClose(seen, cb, j);
    var k: nat :| ClosesAt(seen, cb, k);
    k
  }

  lemma {:induction false} LeastClose(seen: seq<bytes>, cb: Callback, j: nat)
    requires j > 0 && cb(seen + Empties(j)) < 0
    ensures exists k: nat :: ClosesAt(seen, cb, k)
  {
    if i: nat :| 0 < i < j && cb(seen + Empties(i)) < 0 {
      LeastClose(seen, cb, i);
    } else {
      assert ClosesAt(seen, cb, j);
    }
  }

  /**
   The images at the front of the bytes, each as long as its header says, and what follows them.
   An image of length 0 is delivered again and again without the scan moving on, until the
   application closes the source, or for ever.
   */
  ghost function Scan(s: bytes, seen: seq<bytes>, cb: Callback): (seq<bytes>, End) {
    match NextImage(s)
    case Wait => ([], Rest(s))
    case NotTpl => ([], BadPrefix)
    case Take(n) =>
      if n == 0 then
        if NeverCloses(seen, cb) then ([], Endless) else (Empties(Patience(seen, cb)), Aborted)
      else if cb(seen + [s[..n]]) < 0 then ([s[..n]], Aborted)
      else
        var (more, end) := Scan(s[n..], seen + [s[..n]], cb);
        ([s[..n]] + more, end)
  }

  ghost function Concat(parts: seq<bytes>): bytes {
    if parts == [] then [] else parts[0] + Concat(parts[1..])
  }

  class Gatherer {
    /** Largest number of bytes to hold, or 0. */
    const max: nat
    const big: bool
    const cb: Callback
    /** The stored partial image, if there is one. */
    var gs: Option<bytes>
    var delivered: seq<bytes>

    ghost predicate Valid()
      reads this
    {
      gs.Some? ==> gs.value != []
    }

    function Left(): bytes
      reads this
    {
      if gs.Some? then gs.value else []
    }

    constructor (max: nat, big: bool, cb: Callback)
      ensures Valid() && this.max == max && this.big == big && this.cb == cb && gs == None && delivered == []
    {
      this.max, this.big, this.cb, gs, delivered := max, big, cb, None, [];
    }

    /** The new bytes do not fit beside the stored ones. */
    predicate OverLimit(buf: bytes)
      reads this
    {
      gs.Some? && 0 < max < |gs.value| + |buf|
    }

    /** tpl_gather_mem. */
    method GatherMem(buf: bytes) returns (rc: int)
      requires Valid() && (OverLimit(buf) || !Scan(Left() + buf, delivered, cb).1.Endless?)
      modifies this
      ensures Valid()
      ensures rc == -2 <==> old(gs.Some?) && 0 < max < |old(gs.value)| + |buf|
      ensures rc == -2 ==> gs == None && delivered == old(delivered)
      ensures rc != -2 ==>
                var (images, end) := Scan(old(Left()) + buf, old(delivered), cb);
                && delivered == old(delivered) + images
                && Left() == (if end.Rest? then end.left else [])
                && rc == match end case Rest(_) => 1 case BadPrefix => -3 case _ => -4
    {
      hide Scan, NextImage, HeaderLength, GetU32;
      var img := buf;
      if gs.Some? {
        var catlen := |gs.value| + |buf|;
        if max > 0 && catlen > max {
          gs := None;
          return -2;
        }
        img := gs.value + buf;
        gs := None;
      }
      assert img == old(Left()) + buf;
      var tpl;
      rc, tpl := Isolate(img);
      if rc == 1 && tpl < |img| {
        gs := Some(img[tpl..]);
      }
    }

    /** The loop of tpl_gather_mem: hand each full image to the application. */
    method Isolate(img: bytes) returns (rc: int, tpl: nat)
      requires !Scan(img, delivered, cb).1.Endless?
      modifies this`delivered
      ensures var (images, end) := Scan(img, old(delivered), cb);
              && delivered == old(delivered) + images
              && rc == (match end case Rest(_) => 1 case BadPrefix => -3 case _ => -4)
              && (end.Rest? ==> tpl <= |img| && img[tpl..] == end.left)
    {
      hide Scan, NextImage, HeaderLength, GetU32, Passes;
      ghost var all := Scan(img, delivered, cb);
      ghost var before := delivered;
      tpl := 0;
      var cbrc := 0;
      var keepLooping := tpl + 8 < |img|;
      assert img[0..] == img && before + [] == before;
      ScanStep(img, delivered, cb);
      while keepLooping
        invariant 0 <= tpl <= |img|
        invariant cbrc >= 0 ==> if keepLooping then tpl + 8 < |img| else NextImage(img[tpl..]) == Wait
        invariant cbrc >= 0 ==> Ahead(before + all.0, all.1, img[tpl..])
        invariant cbrc < 0 ==> !keepLooping && delivered == before + all.0 && all.1 == Aborted
        decreases keepLooping, |img| - tpl, Passes(img[tpl..], delivered, cb)
      {
        ghost var s := img[tpl..];
        HeaderOf(img, tpl);
        ScanStep(s, delivered, cb);
        if img[tpl..tpl + 3] != MAGIC {
          return -3, tpl;
        }
        var tpllen := ReadU32(img, tpl + 4, big, (img[tpl + 3] % 2 == 1) != big);
        if tpl + tpllen <= |img| {
          OnePass(s, delivered, cb, before + all.0, all.1);
          delivered := delivered + [img[tpl..tpl + tpllen]];
          cbrc := cb(delivered);
          tpl := tpl + tpllen;
          keepLooping := cbrc >= 0 && tpl + 8 < |img|;
          ShortWaits(img[tpl..]);
        } else {
          keepLooping := false;
        }
      }
      if cbrc < 0 {
        return -4, tpl;
      }
      ScanStep(img[tpl..], delivered, cb);
      rc := 1;
    }

    /** From here on, scanning s completes the whole scan. */
    ghost predicate Ahead(all: seq<bytes>, end: End, s: bytes)
      reads this`delivered
    {
      delivered + Scan(s, delivered, cb).0 == all && Scan(s, delivered, cb).1 == end
    }

    /** Piece i does not fit beside the partial image stored before it. */
    ghost predicate LimitHit(chunks: seq<bytes>, i: nat)
      requires i < |chunks|
    {
      var end := Scan(Concat(chunks[..i]), [], cb).1;
      end.Rest? && end.left != [] && 0 < max < |end.left| + |chunks[i]|
    }

    /** The first piece that does not fit, if there is one. */
    lemma FirstHit(chunks: seq<bytes>) returns (hit: nat)
      ensures hit <= |chunks| && forall j: nat | j < hit :: !LimitHit(chunks, j)
      ensures hit < |chunks| ==> LimitHit(chunks, hit)
    {
      hide LimitHit;
      hit := 0;
      while hit < |chunks| && !LimitHit(chunks, hit)
        invariant hit <= |chunks| && forall j: nat | j < hit :: !LimitHit(chunks, j)
      {
        hit := hit + 1;
      }
    }

    /** A caller's loop over arriving pieces, up to the first error. */
    method FeedAll(chunks: seq<bytes>) returns (rc: int)
      requires Valid() && gs == None && delivered == []
      requires Scan(Concat(chunks), [], cb).1.Endless? ==> exists i: nat | i < |chunks| :: LimitHit(chunks, i)
      modifies this
      ensures Valid()
      ensures rc == -2 <==> exists i: nat | i < |chunks| :: LimitHit(chunks, i)
      ensures rc == -2 ==>
                gs == None && exists i: nat | i < |chunks| ::
                  LimitHit(chunks, i) && (forall j: nat | j < i :: !LimitHit(chunks, j)) &&
                  delivered == Scan(Concat(chunks[..i]), [], cb).0
      ensures rc != -2 ==>
                var (images, end) := Scan(Concat(chunks), [], cb);
                && delivered == images
                && Left() == (if end.Rest? then end.left else [])
                && rc == match end case Rest(_) => 1 case BadPrefix => -3 case _ => -4
    {
      hide Scan, NextImage, Concat;
      rc := 1;
      var i: nat := 0;
      StartFeeding(chunks, cb);
      ghost var hit := FirstHit(chunks);
      while i < |chunks| && rc == 1
        invariant 0 <= i <= |chunks| && Valid() && (rc == 1 || rc == -2 || rc == -3 || rc == -4)
        invariant rc == -2 ==>
                    hit < |chunks| && gs == None && delivered == Scan(Concat(chunks[..hit]), [], cb).0
        invariant rc == 1 ==> i <= hit && Scan(Concat(chunks[..i]), [], cb) == (delivered, Rest(Left()))
        invariant rc == -3 || rc == -4 ==>
                    var (images, end) := Scan(Concat(chunks), [], cb);
                    && hit == |chunks| && delivered == images && Left() == []
                    && end == if rc == -3 then BadPrefix else Aborted
      {
        ghost var before, piece := delivered, Concat(chunks[..i]) + chunks[i];
        PieceJoins(chunks, i);
        ScanOn(Concat(chunks[..i]), chunks[i], [], cb);
        ScanOn(piece, Concat(chunks[i + 1..]), [], cb);
        NothingBefore<bytes>([], before);
        assert OverLimit(chunks[i]) <==> LimitHit(chunks, i);
        if i < hit < |chunks| {
          RestBefore(chunks, i + 1, hit, cb);
        }
        rc := GatherMem(chunks[i]);
        i := i + 1;
      }
      assert chunks[..|chunks|] == chunks;
    }
  }

  lemma StartFeeding(chunks: seq<bytes>, cb: Callback)
    ensures Scan(Concat(chunks[..0]), [], cb) == ([], Rest([]))
  {
  }

  lemma PieceJoins(chunks: seq<bytes>, i: nat)
    requires i < |chunks|
    ensures Concat(chunks[..i + 1]) == Concat(chunks[..i]) + chunks[i]
    ensures Concat(chunks) == Concat(chunks[..i + 1]) + Concat(chunks[i + 1..])
  {
    hide Concat;
    SplitAt(chunks, i);
    ConcatJoin(chunks[..i], [chunks[i]]);
    ConcatJoin(chunks[..i + 1], chunks[i + 1..]);
  }

  lemma SplitAt<T>(s: seq<T>, i: nat)
    requires i < |s|
    ensures s[..i] + [s[i]] == s[..i + 1] && s[..i + 1] + s[i + 1..] == s
  {
  }

  /** If a scan of some pieces ends with a rest, so does a scan of fewer of them. */
  lemma RestBefore(chunks: seq<bytes>, i: nat, k: nat, cb: Callback)
    requires i <= k <= |chunks| && Scan(Concat(chunks[..k]), [], cb).1.Rest?
    ensures Scan(Concat(chunks[..i]), [], cb).1.Rest?
  {
    hide Scan;
    ConcatJoin(chunks[..i], chunks[i..k]);
    assert chunks[..i] + chunks[i..k] == chunks[..k];
    ScanOn(Concat(chunks[..i]), Concat(chunks[i..k]), [], cb);
  }

  lemma {:induction false} ConcatJoin(a: seq<bytes>, b: seq<bytes>)
    ensures Concat(a + b) == Concat(a) + Concat(b)
    ensures |b| == 1 ==> Concat(b) == b[0]
  {
    if a == [] {
      assert a + b == b;
    } else {
      assert (a + b)[1..] == a[1..] + b;
      ConcatJoin(a[1..], b);
    }
  }

  /** The deliveries still to come at an image of length 0 before the application closes the source. */
  ghost function Passes(s: bytes, seen: seq<bytes>, cb: Callback): nat {
    if NextImage(s) == Take(0) && !NeverCloses(seen, cb) then Patience(seen, cb) else 0
  }

  /** One pass of the loop: what it delivers, and the scan that is left. */
  lemma ScanStep(s: bytes, seen: seq<bytes>, cb: Callback)
    ensures match NextImage(s)
            case Wait => Scan(s, seen, cb) == ([], Rest(s))
            case NotTpl => Scan(s, seen, cb) == ([], BadPrefix)
            case Take(n) =>
              if cb(seen + [s[..n]]) < 0 then Scan(s, seen, cb) == ([s[..n]], Aborted)
              else
                var (more, end) := Scan(s[n..], seen + [s[..n]], cb);
                Scan(s, seen, cb) == (if end.Endless? && n == 0 then [] else [s[..n]] + more, end)
    ensures NextImage(s) == Take(0) && cb(seen + [[]]) >= 0 && !Scan(s, seen, cb).1.Endless? ==>
              Passes(s, seen + [[]], cb) < Passes(s, seen, cb)
    ensures |s| <= 8 ==> NextImage(s) == Wait
  {
    hide NextImage, Patience, NeverCloses;
    if NextImage(s) == Take(0) {
      assert s[..0] == [] && s[0..] == s;
      EmptyStep(seen, cb);
    } else {
      assert NextImage(s).Wait? ==> Scan(s, seen, cb) == ([], Rest(s));
    }
    ShortWaits(s);
  }

  lemma ShortWaits(s: bytes)
    ensures |s| <= 8 ==> NextImage(s) == Wait
  {
  }

  /** One delivery of an empty image is one less of those to come. */
  lemma EmptyStep(seen: seq<bytes>, cb: Callback)
    ensures cb(seen + [[]]) < 0 ==>
              !NeverCloses(seen, cb) && Patience(seen, cb) == 1 && Empties(Patience(seen, cb)) == [[]]
    ensures cb(seen + [[]]) >= 0 ==> (NeverCloses(seen, cb) <==> NeverCloses(seen + [[]], cb))
    ensures cb(seen + [[]]) >= 0 && !NeverCloses(seen, cb) ==>
              var k, k' := Patience(seen, cb), Patience(seen + [[]], cb);
              k == k' + 1 && Empties(k) == [[]] + Empties(k')
  {
    hide Empties;
    EmptiesShift(seen, 0);
    assert seen + Empties(0) == seen;
    forall k: nat
      ensures seen + Empties(k + 1) == (seen + [[]]) + Empties(k) && Empties(k + 1) == [[]] + Empties(k)
    {
      EmptiesShift(seen, k);
    }
    if cb(seen + [[]]) < 0 {
      assert ClosesAt(seen, cb, 1);
      ClosesOnce(seen, cb, 1);
    } else {
      assert cb(seen + Empties(1)) >= 0;
      if NeverCloses(seen + [[]], cb) {
        forall k: nat | k > 0
          ensures cb(seen + Empties(k)) >= 0
        {
          assert k > 1 ==> seen + Empties(k - 1 + 1) == (seen + [[]]) + Empties(k - 1);
        }
      } else {
        var k := Patience(seen + [[]], cb);
        assert cb(seen + Empties(k + 1)) < 0;
        forall j: nat | 0 < j < k + 1
          ensures cb(seen + Empties(j)) >= 0
        {
          assert j > 1 ==> seen + Empties(j - 1 + 1) == (seen + [[]]) + Empties(j - 1);
        }
        ClosesOnce(seen, cb, k + 1);
      }
    }
  }

  lemma EmptiesShift(seen: seq<bytes>, k: nat)
    ensures seen + Empties(k + 1) == (seen + [[]]) + Empties(k) && Empties(k + 1) == [[]] + Empties(k)
    ensures Empties(1) == [[]] && Empties(0) == []
  {
  }

  lemma ClosesOnce(seen: seq<bytes>, cb: Callback, k: nat)
    requires ClosesAt(seen, cb, k)
    ensures !NeverCloses(seen, cb) && Patience(seen, cb) == k
  {
    var p := Patience(seen, cb);
    assert p >= k && k >= p;
  }

  /** One delivery, seen from the deliveries before it and the whole scan. */
  lemma OnePass(s: bytes, seen: seq<bytes>, cb: Callback, all: seq<bytes>, end: End)
    requires NextImage(s).Take? && !end.Endless?
    requires seen + Scan(s, seen, cb).0 == all && Scan(s, seen, cb).1 == end
    ensures var n := NextImage(s).n;
            var seen' := seen + [s[..n]];
            if cb(seen') < 0 then seen' == all && end == Aborted
            else
              && seen' + Scan(s[n..], seen', cb).0 == all && Scan(s[n..], seen', cb).1 == end
              && (n == 0 ==> s[n..] == s && Passes(s, seen', cb) < Passes(s, seen, cb))
  {
    hide Scan, NextImage, Passes;
    var n := NextImage(s).n;
    ScanStep(s, seen, cb);
    assert n == 0 ==> s[..n] == [];
    Associates(seen, s[..n], Scan(s[n..], seen + [s[..n]], cb).0);
  }

  lemma Associates<T>(a: seq<T>, x: T, b: seq<T>)
    ensures a + ([x] + b) == (a + [x]) + b
  {
  }

  /** What the loop reads at tpl is the header of the bytes from there on. */
  lemma HeaderOf(img: bytes, tpl: nat)
    requires tpl + 8 < |img|
    ensures var s, n := img[tpl..], GetU32(img[tpl + 4..tpl + 8], img[tpl + 3] % 2 == 1);
            && NextImage(s) ==
               (if img[tpl..tpl + 3] != MAGIC then NotTpl else if tpl + n <= |img| then Take(n) else Wait)
            && (tpl + n <= |img| ==> s[..n] == img[tpl..tpl + n] && s[n..] == img[tpl + n..])
  {
    hide GetU32;
    assert img[tpl..][..3] == img[tpl..tpl + 3] && img[tpl..][4..8] == img[tpl + 4..tpl + 8];
  }

  /** More bytes do not change what is found at the front. */
  lemma NextImageStays(a: bytes, b: bytes)
    requires !NextImage(a).Wait?
    ensures NextImage(a + b) == NextImage(a)
    ensures NextImage(a).Take? ==>
              (a + b)[..NextImage(a).n] == a[..NextImage(a).n] &&
              (a + b)[NextImage(a).n..] == a[NextImage(a).n..] + b
  {
    hide GetU32;
    assert (a + b)[..3] == a[..3] && (a + b)[4..8] == a[4..8];
  }

  lemma NothingToScan(seen: seq<bytes>, cb: Callback)
    ensures Scan([], seen, cb) == ([], Rest([]))
  {
  }

  /** Scanning can stop after any prefix and go on later with the rest it left. */
  lemma {:induction false} ScanOn(a: bytes, b: bytes, seen: seq<bytes>, cb: Callback)
    ensures var (images, end) := Scan(a, seen, cb);
            Scan(a + b, seen, cb) ==
            if end.Rest? then
              (images + Scan(end.left + b, seen + images, cb).0, Scan(end.left + b, seen + images, cb).1)
            else (images, end)
    decreases |a|
  {
    hide NextImage, NeverCloses, Patience, Empties;
    if !NextImage(a).Wait? {
      NextImageStays(a, b);
      if NextImage(a).Take? {
        var n := NextImage(a).n;
        if n > 0 && cb(seen + [a[..n]]) >= 0 {
          ScanOn(a[n..], b, seen + [a[..n]], cb);
          var (more, end) := Scan(a[n..], seen + [a[..n]], cb);
          Associates(seen, a[..n], more);
          if end.Rest? {
            var later := Scan(end.left + b, seen + ([a[..n]] + more), cb).0;
            AssociatesRight(a[..n], more, later);
          }
        }
      }
    }
    NothingBefore(seen, Scan(a + b, seen, cb).0);
  }

  lemma AssociatesRight<T>(x: T, a: seq<T>, b: seq<T>)
    ensures [x] + (a + b) == ([x] + a) + b
  {
  }

  lemma NothingBefore<T>(seen: seq<T>, images: seq<T>)
    ensures seen + [] == seen && [] + images == images
  {
  }

  /** No byte is lost or made up: delivered images and the rest are the bytes fed. */
  lemma {:induction false} ScanConserves(s: bytes, seen: seq<bytes>, cb: Callback)
    ensures var (images, end) := Scan(s, seen, cb);
            if end.Rest? then Concat(images) + end.left == s
            else |Concat(images)| <= |s| && Concat(images) == s[..|Concat(images)|]
    decreases |s|
  {
    hide NextImage, Patience, NeverCloses;
    if NextImage(s).Take? {
      var n := NextImage(s).n;
      if n == 0 {
        if !NeverCloses(seen, cb) {
          NoBytes(Patience(seen, cb));
        }
      } else if cb(seen + [s[..n]]) < 0 {
        assert [s[..n]][1..] == [];
      } else {
        ScanConserves(s[n..], seen + [s[..n]], cb);
        var more := Scan(s[n..], seen + [s[..n]], cb).0;
        assert ([s[..n]] + more)[1..] == more;
        assert s == s[..n] + s[n..];
        var k := |Concat(more)|;
        assert s[..n] + s[n..][..k] == s[..n + k];
      }
    }
  }

  // ------------------------------------------------------------------ what a scan is, byte by byte

  /** Nine bytes or more, with tpl in front and this length behind the flags, in the byte order the flags say. */
  ghost predicate Header(s: bytes, n: nat) {
    && |s| >= 9 && s[..3] == [116, 112, 108]
    && n == if s[3] % 2 == 0 then s[4] as int + 0x100 * s[5] as int + 0x1_0000 * s[6] as int + 0x100_0000 * s[7] as int
            else 0x100_0000 * s[4] as int + 0x1_0000 * s[5] as int + 0x100 * s[6] as int + s[7] as int
  }

  lemma NextImageMeans(s: bytes, n: nat)
    ensures NextImage(s) == Take(n) <==> Header(s, n) && n <= |s|
    ensures NextImage(s) == NotTpl <==> |s| >= 9 && s[..3] != [116, 112, 108]
    ensures NextImage(s) == Wait <==> |s| < 9 || exists k :: Header(s, k) && |s| < k
  {
    if |s| >= 9 {
      WordMeans(s[4..8], s[3] % 2 == 1);
      hide GetU32;
      if s[..3] == [116, 112, 108] {
        assert Header(s, HeaderLength(s));
      }
    }
  }

  /** These images are at the front, each with its length in its header, and all but the last were let pass. */
  ghost predicate Front(s: bytes, seen: seq<bytes>, cb: Callback, images: seq<bytes>)
    decreases |images|
  {
    images == [] ||
    var n := |images[0]|;
    && Header(s, n) && n <= |s| && images[0] == s[..n] && (|images| > 1 ==> cb(seen + [images[0]]) >= 0)
    && Front(s[n..], seen + [images[0]], cb, images[1..])
  }

  /** What comes behind the images, and what the application said to the last of them, tell how the scan ends. */
  ghost predicate EndsAs(end: End, left: bytes, seen: seq<bytes>, cb: Callback) {
    match end
    case Rest(rest) => rest == left && (|left| < 9 || exists k :: Header(left, k) && |left| < k)
    case BadPrefix => |left| >= 9 && left[..3] != [116, 112, 108]
    case Aborted => cb(seen) < 0
    case Endless => Header(left, 0) && forall k: nat | k > 0 :: cb(seen + Empties(k)) >= 0
  }

  /** A scan delivers the images at the front as far as the application lets it, and stops for the right reason. */
  lemma {:induction false} ScanMeans(s: bytes, seen: seq<bytes>, cb: Callback)
    ensures var (images, end) := Scan(s, seen, cb);
            && Front(s, seen, cb, images)
            && |Concat(images)| <= |s| && EndsAs(end, s[|Concat(images)|..], seen + images, cb)
            && (images != [] ==> (end == Aborted <==> cb(seen + images) < 0))
            && (images == [] ==> end != Aborted)
    decreases |s|
  {
    hide NextImage, Header, EndsAs, Patience, NeverCloses, Empties;
    EndsHere(s, seen, cb);
    assert Concat([]) == [] && seen + [] == seen && s[0..] == s;
    if NextImage(s).Take? {
      var n := NextImage(s).n;
      var x := s[..n];
      EndsHere(s[n..], seen + [x], cb);
      if n == 0 {
        if !NeverCloses(seen, cb) {
          var k := Patience(seen, cb);
          EmptyFront(s, seen, cb, k);
          NoBytes(k);
          EndsHere(s, seen + Empties(k), cb);
        }
      } else {
        var (more, end) := if cb(seen + [x]) < 0 then ([], Aborted) else Scan(s[n..], seen + [x], cb);
        if cb(seen + [x]) >= 0 {
          ScanMeans(s[n..], seen + [x], cb);
        }
        FrontGrows(s, seen, cb, n, more);
        Associates(seen, x, more);
        assert more == [] ==> seen + ([x] + more) == seen + [x];
      }
    }
  }

  lemma EndsHere(s: bytes, seen: seq<bytes>, cb: Callback)
    ensures NextImage(s).Wait? ==> EndsAs(Rest(s), s, seen, cb)
    ensures NextImage(s).NotTpl? ==> EndsAs(BadPrefix, s, seen, cb)
    ensures NextImage(s).Take? ==> Header(s, NextImage(s).n)
    ensures NextImage(s) == Take(0) && NeverCloses(seen, cb) ==> EndsAs(Endless, s, seen, cb)
    ensures cb(seen) < 0 ==> EndsAs(Aborted, s, seen, cb)
  {
    hide NextImage, Header;
    NextImageMeans(s, if NextImage(s).Take? then NextImage(s).n else 0);
  }

  lemma FrontGrows(s: bytes, seen: seq<bytes>, cb: Callback, n: nat, more: seq<bytes>)
    requires Header(s, n) && n <= |s| && (more != [] ==> cb(seen + [s[..n]]) >= 0)
    requires Front(s[n..], seen + [s[..n]], cb, more)
    ensures Front(s, seen, cb, [s[..n]] + more)
    ensures |Concat([s[..n]] + more)| == n + |Concat(more)|
    ensures n + |Concat(more)| <= |s| ==> s[|Concat([s[..n]] + more)|..] == s[n..][|Concat(more)|..]
  {
    hide Header;
    assert ([s[..n]] + more)[1..] == more;
  }

  lemma {:induction false} EmptyFront(s: bytes, seen: seq<bytes>, cb: Callback, k: nat)
    requires Header(s, 0) && forall j: nat | 0 < j < k :: cb(seen + Empties(j)) >= 0
    ensures Front(s, seen, cb, Empties(k))
    decreases k
  {
    hide Header, Empties;
    EmptiesShift(seen, 0);
    if k > 0 {
      EmptiesShift(seen, k - 1);
      assert s[0..] == s && s[..0] == [] && Empties(k)[1..] == Empties(k - 1);
      forall j: nat | 0 < j < k - 1
        ensures cb((seen + [[]]) + Empties(j)) >= 0
      {
        EmptiesShift(seen, j);
        assert cb(seen + Empties(j + 1)) >= 0;
      }
      assert k > 1 ==> cb(seen + Empties(1)) >= 0;
      EmptyFront(s, seen + [[]], cb, k - 1);
    }
  }

  lemma {:induction false} NoBytes(k: nat)
    ensures Concat(Empties(k)) == []
  {
    if k > 0 {
      assert Empties(k)[1..] == Empties(k - 1);
      NoBytes(k - 1);
    }
  }

  /** An image with a correct header. */
  ghost predicate Framed(x: bytes) {
    |x| > 8 && x[..3] == MAGIC && HeaderLength(x) == |x|
  }

  lemma FramedIsNext(x: bytes)
    requires Framed(x)
    ensures NextImage(x) == Take(|x|) && x != []
  {
  }

  /** A stream of images is scanned into just these images. */
  lemma {:induction false} ScanOfImages(images: seq<bytes>, seen: seq<bytes>, cb: Callback)
    requires forall i | 0 <= i < |images| :: Framed(images[i])
    requires forall h :: cb(h) >= 0
    ensures Scan(Concat(images), seen, cb) == (images, Rest([]))
    decreases |images|
  {
    hide NextImage, Framed;
    NothingToScan(seen, cb);
    if images != [] {
      var x, rest := images[0], Concat(images[1..]);
      FramedIsNext(x);
      NextImageStays(x, rest);
      assert x[..|x|] == x && x[|x|..] + rest == rest;
      ScanOfImages(images[1..], seen + [x], cb);
      assert (x + rest)[..|x|] == x && (x + rest)[|x|..] == rest && cb(seen + [x]) >= 0;
      assert [x] + images[1..] == images;
    }
  }

  /** However a stream of images is cut, exactly these images are delivered, and nothing is left. */
  method ChunkingDoesNotMatter(g: Gatherer, chunks: seq<bytes>, ghost images: seq<bytes>) returns (rc: int)
    requires g.Valid() && g.gs == None && g.delivered == []
    requires (forall i: nat | i < |chunks| :: !g.LimitHit(chunks, i)) && forall h :: g.cb(h) >= 0
    requires Concat(chunks) == Concat(images) && forall i | 0 <= i < |images| :: Framed(images[i])
    modifies g
    ensures rc == 1 && g.delivered == images && g.gs == None
  {
    ScanOfImages(images, [], g.cb);
    rc := g.FeedAll(chunks);
  }

  /** Every image that tpl_dump writes has a correct header. */
  lemma ImageIsFramed(f: Fmt, full: Slots, o: Order)
    requires WfFmt(f) && SlotsOk(Kids(f), full) && ImageSize(f, full, o) < TWO_32
    ensures Framed(Image(f, full, o))
  {
    hide GetU32, PutU32, FxBytes, EncRest, Preamble, SlotsOk;
    var img, total := Image(f, full, o), ImageSize(f, full, o);
    assert Holds(img, 0, Preamble(f, total, o.ImageBig()));
    PreambleParts(f, total, o.ImageBig(), img, Order(o.ImageBig(), false));
    U32Inverse(total, img[4..8], o.ImageBig());
  }

  // ------------------------------------------------------------------ when the loop does not end

  /** The images stand at the front of the bytes, one behind the other, before the rest. */
  ghost predicate Stream(images: seq<bytes>, rest: bytes) {
    images == [] ||
    (images[0] != [] && NextImage(Concat(images) + rest) == Take(|images[0]|) && Stream(images[1..], rest))
  }

  /** The application lets all these deliveries pass. */
  ghost predicate Passed(seen: seq<bytes>, images: seq<bytes>, cb: Callback)
    decreases |images|
  {
    images == [] || (cb(seen + [images[0]]) >= 0 && Passed(seen + [images[0]], images[1..], cb))
  }

  /** The bytes are images, and then a header with length 0 at which the application never closes the source. */
  ghost predicate Stuck(s: bytes, seen: seq<bytes>, cb: Callback, images: seq<bytes>, rest: bytes) {
    && s == Concat(images) + rest && Stream(images, rest) && Passed(seen, images, cb)
    && NextImage(rest) == Take(0) && NeverCloses(seen + images, cb)
  }

  lemma StuckHere(s: bytes, seen: seq<bytes>, cb: Callback)
    requires NextImage(s) == Take(0) && NeverCloses(seen, cb)
    ensures Stuck(s, seen, cb, [], s)
  {
    assert seen + [] == seen && Concat([]) + s == s;
  }

  lemma StuckLater(s: bytes, n: nat, seen: seq<bytes>, cb: Callback, images: seq<bytes>, rest: bytes)
    requires NextImage(s) == Take(n) && 0 < n <= |s| && cb(seen + [s[..n]]) >= 0
    requires Stuck(s[n..], seen + [s[..n]], cb, images, rest)
    ensures Stuck(s, seen, cb, [s[..n]] + images, rest)
  {
    hide NextImage, NeverCloses;
    var all := [s[..n]] + images;
    assert all[1..] == images && seen + all == seen + [s[..n]] + images;
    assert Concat(all) + rest == s[..n] + s[n..] == s;
  }

  /** The scan of a stream is endless exactly if it gets stuck behind some of its images. */
  lemma {:induction false} EndlessIff(s: bytes, seen: seq<bytes>, cb: Callback)
    ensures Scan(s, seen, cb).1.Endless? <==> exists images, rest :: Stuck(s, seen, cb, images, rest)
    decreases |s|
  {
    hide NextImage, NeverCloses, Stuck;
    if Scan(s, seen, cb).1.Endless? {
      var n := NextImage(s).n;
      if n == 0 {
        StuckHere(s, seen, cb);
      } else {
        EndlessIff(s[n..], seen + [s[..n]], cb);
        var images, rest :| Stuck(s[n..], seen + [s[..n]], cb, images, rest);
        StuckLater(s, n, seen, cb, images, rest);
      }
    }
    if images, rest :| Stuck(s, seen, cb, images, rest) {
      StuckIsEndless(s, seen, cb, images, rest);
    }
  }

  /** And then the images before the header are what the scan finds. */
  lemma {:induction false} StuckIsEndless(s: bytes, seen: seq<bytes>, cb: Callback, images: seq<bytes>, rest: bytes)
    requires Stuck(s, seen, cb, images, rest)
    ensures Scan(s, seen, cb) == (images, Endless)
    decreases |images|
  {
    hide NextImage, NeverCloses;
    if images == [] {
      assert seen + [] == seen && Concat(images) + rest == rest;
    } else {
      var x, n := images[0], |images[0]|;
      assert s == x + (Concat(images[1..]) + rest);
      assert s[..n] == x && s[n..] == Concat(images[1..]) + rest;
      assert seen + images == seen + [x] + images[1..] && [x] + images[1..] == images;
      StuckIsEndless(s[n..], seen + [x], cb, images[1..], rest);
    }
  }

  /** Images with correct headers make up such a stream, so that one zero-length header behind them is enough. */
  lemma {:induction false} FramedStream(images: seq<bytes>, rest: bytes)
    requires forall i | 0 <= i < |images| :: Framed(images[i])
    ensures Stream(images, rest)
    decreases |images|
  {
    hide NextImage, Framed, Stream, Concat;
    StreamStarts(images, rest);
    if images != [] {
      var x, more := images[0], Concat(images[1..]) + rest;
      FramedFront(x, more);
      ConcatFirst(images, rest);
      FramedStream(images[1..], rest);
    }
  }

  lemma FramedFront(x: bytes, more: bytes)
    requires Framed(x)
    ensures NextImage(x + more) == Take(|x|) && x != []
  {
    FramedIsNext(x);
    hide NextImage;
    NextImageStays(x, more);
  }

  lemma ConcatFirst(images: seq<bytes>, rest: bytes)
    requires images != []
    ensures Concat(images) + rest == images[0] + (Concat(images[1..]) + rest)
  {
  }

  lemma StreamStarts(images: seq<bytes>, rest: bytes)
    ensures Stream(images, rest) <==>
              images == [] ||
              (images[0] != [] && NextImage(Concat(images) + rest) == Take(|images[0]|) && Stream(images[1..], rest))
  {
  }

  /** After k passes the loop of tpl_gather_mem wants another one. */
  ghost predicate LoopsOn(s: bytes, seen: seq<bytes>, cb: Callback, k: nat)
    decreases k
  {
    |s| > 8 &&
    (k > 0 ==>
       var next := NextImage(s);
       next.Take? && cb(seen + [s[..next.n]]) >= 0 && LoopsOn(s[next.n..], seen + [s[..next.n]], cb, k - 1))
  }

  /** An endless scan is a loop that goes on after any number of passes, and no other loop does. */
  lemma EndlessLoops(s: bytes, seen: seq<bytes>, cb: Callback)
    ensures Scan(s, seen, cb).1.Endless? <==> forall k: nat :: LoopsOn(s, seen, cb, k)
  {
    hide Scan, LoopsOn;
    if Scan(s, seen, cb).1.Endless? {
      forall k: nat
        ensures LoopsOn(s, seen, cb, k)
      {
        EndlessGoesOn(s, seen, cb, k);
      }
    } else {
      var k := LoopStops(s, seen, cb);
    }
  }

  lemma {:induction false} EndlessGoesOn(s: bytes, seen: seq<bytes>, cb: Callback, k: nat)
    requires Scan(s, seen, cb).1.Endless?
    ensures LoopsOn(s, seen, cb, k)
    decreases k
  {
    hide NextImage, Scan;
    ScanStep(s, seen, cb);
    if k > 0 {
      var n := NextImage(s).n;
      EndlessGoesOn(s[n..], seen + [s[..n]], cb, k - 1);
    }
  }

  lemma {:induction false} LoopStops(s: bytes, seen: seq<bytes>, cb: Callback) returns (k: nat)
    requires !Scan(s, seen, cb).1.Endless?
    ensures !LoopsOn(s, seen, cb, k)
    decreases |s|, Passes(s, seen, cb)
  {
    hide NextImage, Scan, Passes;
    ScanStep(s, seen, cb);
    k := 1;
    if NextImage(s).Take? && cb(seen + [s[..NextImage(s).n]]) >= 0 {
      var n := NextImage(s).n;
      assert n == 0 ==> s[n..] == s && s[..n] == [];
      var j := LoopStops(s[n..], seen + [s[..n]], cb);
      k := j + 1;
    }
  }

  // ------------------------------------------------------------------ an example

  /** A header that says length 0, and one byte. */
  const ZERO_LENGTH: bytes := [116, 112, 108, 0, 0, 0, 0, 0, 65]

  /** It keeps the loop going for ever, unless the application has enough of empty images at some time. */
  lemma ZeroLengthExample()
    ensures Scan(ZERO_LENGTH, [], _ => 0) == ([], Endless)
    ensures Scan(ZERO_LENGTH, [], (h: seq<bytes>) => if |h| >= 2 then -1 else 0) == ([[], []], Aborted)
  {
    assert ZERO_LENGTH[4..8] == [0, 0, 0, 0] && ZERO_LENGTH[..3] == MAGIC;
    assert NextImage(ZERO_LENGTH) == Take(0);
    var twice := (h: seq<bytes>) => if |h| >= 2 then -1 else 0;
    assert ClosesAt([], twice, 2);
    ClosesOnce([], twice, 2);
    assert Empties(2) == [[], []];
  }
}
