/** The estimate of when the next heartbeat is due, from two rolling windows over the arrivals so far. */
module AdaptiveTimeout {
  import opened Bits

  const HEARTBEAT_INTERVAL: real := 50.0

  // ------------------------------------------------------------------ sums over windows

  /** s[lo] + ... + s[hi - 1] */
  function Sum(s: seq<real>, lo: nat, hi: nat): real
    requires lo <= hi <= |s|
    decreases hi - lo
  {
    if lo == hi then 0.0 else Sum(s, lo, hi - 1) + s[hi - 1]
  }

  /** Where the window of the last w entries starts. */
  function Start(n: nat, w: nat): nat {
    if n < w then 0 else n - w
  }

  function WindowSum(s: seq<real>, w: nat): real {
    Sum(s, Start(|s|, w), |s|)
  }

  /** The ring buffer has entry j of the history in slot j mod w, as far as the window reaches back. */
  ghost predicate InRing(buf: seq<real>, s: seq<real>) {
    |buf| > 0 && forall j: nat | Start(|s|, |buf|) <= j < |s| :: buf[j % |buf|] == s[j]
  }

  lemma {:induction false} SumSplits(s: seq<real>, lo: nat, mid: nat, hi: nat)
    requires lo <= mid <= hi <= |s|
    ensures Sum(s, lo, hi) == Sum(s, lo, mid) + Sum(s, mid, hi)
    decreases hi - mid
  {
    if mid < hi {
      SumSplits(s, lo, mid, hi - 1);
    }
  }

  lemma {:induction false} SumOfPrefix(s: seq<real>, t: seq<real>, lo: nat, hi: nat)
    requires lo <= hi <= |s|
    ensures Sum(s + t, lo, hi) == Sum(s, lo, hi)
    decreases hi - lo
  {
    if lo < hi {
      SumOfPrefix(s, t, lo, hi - 1);
    }
  }

  /** Subtracting the entry that leaves and adding the new one keeps the window's sum. */
  lemma WindowSlides(s: seq<real>, x: real, w: nat)
    requires w > 0
    ensures WindowSum(s + [x], w) == WindowSum(s, w) + x - (if |s| < w then 0.0 else s[|s| - w])
  {
    var lo := Start(|s|, w);
    var t := s + [x];
    SumOfPrefix(s, [x], lo, |s|);
    if |s| >= w {
      SumSplits(t, lo, lo + 1, |t|);
      assert Sum(t, lo, lo + 1) == Sum(t, lo, lo) + t[lo];
    }
  }

  lemma SameSlot(i: nat, j: nat, w: nat)
    requires w > 0 && i <= j < i + w && i % w == j % w
    ensures i == j
  {
    assert j / w * w + j % w == j && i / w * w + i % w == i;
    assert j - i == (j / w - i / w) * w;
    Multiple(j / w - i / w, w);
  }

  lemma Multiple(d: int, w: nat)
    requires w > 0
    ensures d >= 1 ==> d * w >= w
    ensures d <= -1 ==> d * w <= 0 - w
  {
  }

  /** Writing the new entry to slot |s| mod w overwrites just the entry that leaves the window. */
  lemma RingSlides(buf: seq<real>, s: seq<real>, x: real)
    requires InRing(buf, s)
    ensures |s| % |buf| < |buf| && InRing(buf[|s| % |buf| := x], s + [x])
    ensures |s| >= |buf| ==> buf[|s| % |buf|] == s[|s| - |buf|]
  {
    var w, n := |buf|, |s|;
    var buf' := buf[n % w := x];
    forall j: nat | Start(n + 1, w) <= j < n + 1
      ensures buf'[j % w] == (s + [x])[j]
    {
      if j < n && j % w == n % w {
        SameSlot(j, n, w);
      }
    }
    if n >= w {
      SlotOfOldest(n, w);
    }
  }

  lemma SlotOfOldest(n: nat, w: nat)
    requires 0 < w <= n
    ensures (n - w) % w == n % w
  {
    assert (n - w) / w * w + (n - w) % w == n - w;
    var q := (n - w) / w + 1;
    assert n == q * w + (n - w) % w;
    assert n / w * w + n % w == n;
    SameRemainder(q, (n - w) % w, n / w, n % w, w);
  }

  lemma SameRemainder(q: int, r: int, q': int, r': int, w: nat)
    requires 0 <= r < w && 0 <= r' < w && q * w + r == q' * w + r'
    ensures r == r'
  {
    assert (q - q') * w == r' - r;
    Multiple(q - q', w);
  }

  // ------------------------------------------------------------------ what is estimated

  /** Time since the heartbeat before, for the first one since the start. */
  function Gap(a: seq<real>, first: real, j: nat): real
    requires j < |a|
  {
    if j == 0 then a[0] - first else a[j] - a[j - 1]
  }

  function Gaps(a: seq<real>, first: real): (r: seq<real>)
    ensures |r| == |a|
  {
    seq(|a|, j requires 0 <= j < |a| => Gap(a, first, j))
  }

  function Mean(sum: real, n: nat): real
    requires n > 0
  {
    sum / n as real
  }

  /** An arrival time less k average gaps. */
  function Offset(t: real, k: nat, average: real): real {
    t - k as real * average
  }

  /** The mean offset in a window, put k + 1 average gaps after the start. */
  function Predicted(sum: real, n: nat, k: nat, average: real): real
    requires n > 0
  {
    1.0 / n as real * sum + (k + 1) as real * average
  }

  /** The average gap after heartbeat k. */
  function Average(a: seq<real>, first: real, w2: nat, k: nat): real
    requires k < |a| && w2 > 0
  {
    if k == 0 then HEARTBEAT_INTERVAL else Mean(WindowSum(Gaps(a[..k + 1], first), w2), Min(k, w2))
  }

  /** Arrival k less what the average of the heartbeats before it predicts. */
  function Normalized(a: seq<real>, first: real, w2: nat, k: nat): real
    requires k < |a| && w2 > 0
  {
    if k == 0 then a[0] - first else Offset(a[k] - first, k, Average(a, first, w2, k - 1))
  }

  function AllNormalized(a: seq<real>, first: real, w2: nat): (r: seq<real>)
    requires w2 > 0
    ensures |r| == |a|
  {
    seq(|a|, j requires 0 <= j < |a| => Normalized(a, first, w2, j))
  }

  /** Arrival of heartbeat k + 1 as estimated from one window. */
  function Estimate(a: seq<real>, first: real, w: nat, w2: nat, k: nat): real
    requires 0 < k < |a| && w > 0 && w2 > 0
  {
    Predicted(WindowSum(AllNormalized(a[..k + 1], first, w2), w), Min(k, w), k, Average(a, first, w2, k))
  }

  /** The next arrival as estimated after the last of these arrivals. */
  function Estimated(a: seq<real>, first: real, w1: nat, w2: nat): real
    requires a != [] && w1 > 0 && w2 > 0
  {
    var k := |a| - 1;
    if k == 0 then HEARTBEAT_INTERVAL
    else
      var e1, e2 := Estimate(a, first, w1, w2, k), Estimate(a, first, w2, w2, k);
      if e1 > e2 then e1 else e2
  }

  /** Time to wait after the last of these arrivals. */
  function Timeout(a: seq<real>, first: real, w1: nat, w2: nat): real
    requires a != [] && w1 > 0 && w2 > 0
  {
    Estimated(a, first, w1, w2) + HEARTBEAT_INTERVAL - (a[|a| - 1] - first)
  }

  // ------------------------------------------------------------------ the running computation

  class TimeoutModel {
    const w1Size: nat
    const w2Size: nat
    const firstHeartbeat: real
    const alpha: real
    const normalizedW1: array<real>
    const normalizedW2: array<real>
    const deltas: array<real>
    var arrivalTime: real
    var estimatedArrival: real
    var freshnessPoint: real
    var nextTimeout: real
    var averageHeartbeat: real
    var seqNum: int
    var sumW1: real
    var sumW2: real
    var sumDeltas: real
    var notifiedWindowsFull: bool
    /** The arrivals so far. */
    ghost var arrivals: seq<real>

    ghost predicate Valid()
      reads this, normalizedW1, normalizedW2, deltas
    {
      && 0 < w1Size <= w2Size && alpha == HEARTBEAT_INTERVAL
      && normalizedW1.Length == w1Size && normalizedW2.Length == w2Size && deltas.Length == w2Size
      && normalizedW1 != normalizedW2 && normalizedW1 != deltas && normalizedW2 != deltas
      && |arrivals| == seqNum + 1
      && arrivalTime == (if seqNum < 0 then 0.0 else arrivals[seqNum] - firstHeartbeat)
      && (seqNum >= 0 ==> averageHeartbeat == Average(arrivals, firstHeartbeat, w2Size, seqNum))
      && WindowsOk(arrivals)
    }

    /** Both windows and the gaps: ring contents and running sums are those of the last samples. */
    ghost predicate WindowsOk(a: seq<real>)
      reads this`sumW1, this`sumW2, this`sumDeltas, normalizedW1, normalizedW2, deltas
    {
      && w2Size > 0
      && InRing(normalizedW1[..], AllNormalized(a, firstHeartbeat, w2Size))
      && InRing(normalizedW2[..], AllNormalized(a, firstHeartbeat, w2Size))
      && InRing(deltas[..], Gaps(a, firstHeartbeat))
      && sumW1 == WindowSum(AllNormalized(a, firstHeartbeat, w2Size), w1Size)
      && sumW2 == WindowSum(AllNormalized(a, firstHeartbeat, w2Size), w2Size)
      && sumDeltas == WindowSum(Gaps(a, firstHeartbeat), w2Size)
    }

    /** init_adaptive_timeout_struct; the average is left as the allocated memory has it. */
    constructor (w1Size: nat, w2Size: nat, firstHeartbeat: real, unset: real)
      requires 0 < w1Size <= w2Size
      ensures Valid() && seqNum == -1 && arrivals == []
      ensures this.w1Size == w1Size && this.w2Size == w2Size && this.firstHeartbeat == firstHeartbeat
      ensures fresh(normalizedW1) && fresh(normalizedW2) && fresh(deltas)
    {
      this.w1Size, this.w2Size, this.firstHeartbeat := w1Size, w2Size, firstHeartbeat;
      alpha := HEARTBEAT_INTERVAL;
      normalizedW1 := new real[w1Size](_ => 0.0);
      normalizedW2 := new real[w2Size](_ => 0.0);
      deltas := new real[w2Size](_ => 0.0);
      arrivalTime, estimatedArrival, freshnessPoint, nextTimeout, averageHeartbeat := 0.0, 0.0, 0.0, 0.0, unset;
      seqNum, sumW1, sumW2, sumDeltas, notifiedWindowsFull := -1, 0.0, 0.0, 0.0, false;
      arrivals := [];
    }

    /** estimate_next_delay */
    method EstimateNextDelay(currentArrivalTime: real)
      requires Valid()
      modifies this, normalizedW1, normalizedW2, deltas
      ensures Valid() && arrivals == old(arrivals) + [currentArrivalTime]
      ensures nextTimeout == Timeout(arrivals, firstHeartbeat, w1Size, w2Size)
      ensures notifiedWindowsFull == (old(notifiedWindowsFull) || seqNum >= w2Size)
      ensures seqNum == old(seqNum) + 1 && arrivalTime == currentArrivalTime - firstHeartbeat
      ensures estimatedArrival + 50.0 == freshnessPoint == arrivalTime + nextTimeout
    {
      hide InRing, WindowSum, Average, Normalized, Gaps, AllNormalized, Estimated, Offset;
      seqNum := seqNum + 1;
      var k: nat := seqNum;
      var current := currentArrivalTime - firstHeartbeat;
      var timeFromLast := current - arrivalTime;
      arrivalTime := current;
      var t := arrivalTime;
      var normalized := Offset(t, k, averageHeartbeat);
      ghost var unset := averageHeartbeat;
      if k == 0 {
        estimatedArrival := HEARTBEAT_INTERVAL;
        averageHeartbeat := HEARTBEAT_INTERVAL;
      }
      ghost var before := arrivals;
      arrivals := arrivals + [currentArrivalTime];
      HistoryGrows(before, currentArrivalTime, firstHeartbeat, w2Size);
      NewSample(before, currentArrivalTime, firstHeartbeat, w2Size, unset);
      RollWindows(k, normalized, timeFromLast, before);
      Estimate(k);
      if !notifiedWindowsFull && k >= w1Size && k >= w2Size {
        notifiedWindowsFull := true;
      }
      freshnessPoint := estimatedArrival + alpha;
      nextTimeout := freshnessPoint - arrivalTime;
    }

    /** The windows take the new sample and the new gap. */
    method RollWindows(k: nat, normalized: real, timeFromLast: real, ghost before: seq<real>)
      requires 0 < w1Size <= w2Size && |before| == k && WindowsOk(before)
      requires normalizedW1.Length == w1Size && normalizedW2.Length == w2Size && deltas.Length == w2Size
      requires normalizedW1 != normalizedW2 && normalizedW1 != deltas && normalizedW2 != deltas
      requires AllNormalized(arrivals, firstHeartbeat, w2Size) == AllNormalized(before, firstHeartbeat, w2Size) +
               [normalized]
      requires Gaps(arrivals, firstHeartbeat) == Gaps(before, firstHeartbeat) + [timeFromLast]
      modifies this`sumW1, this`sumW2, this`sumDeltas, normalizedW1, normalizedW2, deltas
      ensures WindowsOk(arrivals)
    {
      hide InRing, WindowSum, Gaps, AllNormalized;
      sumW1 := Slide(normalizedW1, k, sumW1, normalized, AllNormalized(before, firstHeartbeat, w2Size));
      sumW2 := Slide(normalizedW2, k, sumW2, normalized, AllNormalized(before, firstHeartbeat, w2Size));
      sumDeltas := Slide(deltas, k, sumDeltas, timeFromLast, Gaps(before, firstHeartbeat));
      // the slot is written once more at the end of the original, with the same value
      ghost var ring := deltas[..];
      deltas[k % w2Size] := timeFromLast;
      assert deltas[..] == ring;
    }

    /** The new average, and the later one of the two windows' estimates. */
    method Estimate(k: nat)
      requires 0 < w1Size <= w2Size && WindowsOk(arrivals) && |arrivals| == k + 1
      requires k == 0 ==> averageHeartbeat == HEARTBEAT_INTERVAL == estimatedArrival
      modifies this`averageHeartbeat, this`estimatedArrival
      ensures averageHeartbeat == Average(arrivals, firstHeartbeat, w2Size, k)
      ensures estimatedArrival == Estimated(arrivals, firstHeartbeat, w1Size, w2Size)
    {
      hide InRing, WindowSum, Gaps, AllNormalized, Mean, Predicted;
      assert arrivals[..k + 1] == arrivals;
      if k != 0 {
        var samplesW1, samplesW2 := if k < w1Size then k else w1Size, if k < w2Size then k else w2Size;
        averageHeartbeat := Mean(sumDeltas, samplesW2);
        var estimatedW1 := Predicted(sumW1, samplesW1, k, averageHeartbeat);
        var estimatedW2 := Predicted(sumW2, samplesW2, k, averageHeartbeat);
        estimatedArrival := if estimatedW1 > estimatedW2 then estimatedW1 else estimatedW2;
      }
    }
  }

  /** The first sample does not depend on the average, which is not set yet. */
  lemma NewSample(a: seq<real>, x: real, first: real, w2: nat, average: real)
    requires w2 > 0 && (a != [] ==> average == Average(a, first, w2, |a| - 1))
    ensures Gap(a + [x], first, |a|) == x - first - if a == [] then 0.0 else a[|a| - 1] - first
    ensures Normalized(a + [x], first, w2, |a|) == Offset(x - first, |a|, average)
  {
    hide Average;
    HistoryGrows(a, x, first, w2);
  }

  /** The update of one rolling sum and its ring buffer. */
  method Slide(buf: array<real>, k: nat, sum: real, x: real, ghost s: seq<real>) returns (sum': real)
    requires buf.Length > 0 && |s| == k && InRing(buf[..], s) && sum == WindowSum(s, buf.Length)
    modifies buf
    ensures InRing(buf[..], s + [x]) && sum' == WindowSum(s + [x], buf.Length)
    ensures k % buf.Length < buf.Length && buf[k % buf.Length] == x
  {
    hide InRing, WindowSum;
    RingSlides(buf[..], s, x);
    WindowSlides(s, x, buf.Length);
    if k < buf.Length {
      sum' := sum + x;
      buf[k] := x;
    } else {
      var past := k % buf.Length;
      sum' := sum - buf[past];
      sum' := sum' + x;
      buf[past] := x;
    }
    SmallModulo(k, buf.Length);
    assert buf[..] == old(buf[..])[k % buf.Length := x];
  }

  lemma SmallModulo(k: nat, w: nat)
    requires w > 0
    ensures k < w ==> k % w == k
  {
  }

  lemma HistoryGrows(a: seq<real>, x: real, first: real, w2: nat)
    requires w2 > 0
    ensures Gaps(a + [x], first) == Gaps(a, first) + [Gap(a + [x], first, |a|)]
    ensures AllNormalized(a + [x], first, w2) == AllNormalized(a, first, w2) + [Normalized(a + [x], first, w2, |a|)]
    ensures forall j: nat | j < |a| :: Average(a + [x], first, w2, j) == Average(a, first, w2, j)
  {
    hide Average, Normalized;
    forall j: nat | j < |a|
      ensures Average(a + [x], first, w2, j) == Average(a, first, w2, j)
      ensures Normalized(a + [x], first, w2, j) == Normalized(a, first, w2, j)
    {
      EarlierSame(a, x, first, w2, j);
    }
  }

  lemma EarlierSame(a: seq<real>, x: real, first: real, w2: nat, j: nat)
    requires w2 > 0 && j < |a|
    ensures Average(a + [x], first, w2, j) == Average(a, first, w2, j)
    ensures Normalized(a + [x], first, w2, j) == Normalized(a, first, w2, j)
  {
    hide WindowSum, Gaps;
    assert (a + [x])[..j + 1] == a[..j + 1];
    assert (a + [x])[..j] == a[..j];
  }

  // ------------------------------------------------------------------ the average telescopes

  lemma {:induction false} GapsTelescope(a: seq<real>, first: real, lo: nat, hi: nat)
    requires 0 < lo <= hi <= |a|
    ensures Sum(Gaps(a, first), lo, hi) == a[hi - 1] - a[lo - 1]
    ensures Sum(Gaps(a, first), 0, hi) == a[hi - 1] - first
    decreases hi
  {
    if hi == 1 {
      assert Sum(Gaps(a, first), 0, 1) == Sum(Gaps(a, first), 0, 0) + Gap(a, first, 0);
    } else {
      if lo < hi {
        GapsTelescope(a, first, lo, hi - 1);
      } else {
        GapsTelescope(a, first, hi - 1, hi - 1);
      }
    }
  }

  /** The sum of the gaps in the window is the time from the heartbeat before it (or the start) to the last one. */
  lemma WindowTelescopes(a: seq<real>, first: real, w: nat)
    requires a != [] && w > 0
    ensures WindowSum(Gaps(a, first), w) == a[|a| - 1] - if |a| <= w then first else a[|a| - 1 - w]
  {
    var lo := Start(|a|, w);
    GapsTelescope(a, first, if lo == 0 then 1 else lo, |a|);
  }

  /**
   The average gap is the time over the last m gaps divided by m, once more than w2 heartbeats have
   arrived; before, exactly if the first heartbeat arrived when the model was created.
   */
  lemma AverageTelescopes(a: seq<real>, first: real, w2: nat, k: nat)
    requires 0 < k < |a| && w2 > 0
    ensures var m := Min(k, w2);
            Average(a, first, w2, k) == Mean(a[k] - a[k - m], m) <==> k >= w2 || a[0] == first
  {
    var m := Min(k, w2);
    WindowTelescopes(a[..k + 1], first, w2);
    var sum := WindowSum(Gaps(a[..k + 1], first), w2);
    assert sum == if k >= w2 then a[k] - a[k - w2] else a[k] - first;
    QuotientsEqual(sum, a[k] - a[k - m], m);
  }

  lemma QuotientsEqual(x: real, y: real, n: nat)
    requires n > 0
    ensures Mean(x, n) == Mean(y, n) <==> x == y
  {
    assert Mean(x, n) * n as real == x && Mean(y, n) * n as real == y;
  }

  lemma {:induction false} SpanInBounds(a: seq<real>, i: nat, j: nat, lo: real, hi: real)
    requires i <= j < |a| && forall l | i < l <= j :: lo <= a[l] - a[l - 1] <= hi
    ensures (j - i) as real * lo <= a[j] - a[i] <= (j - i) as real * hi
    decreases j - i
  {
    if i < j {
      SpanInBounds(a, i, j - 1, lo, hi);
      var d := (j - i) as real;
      assert (j - 1 - i) as real == d - 1.0;
      assert (d - 1.0) * lo == d * lo - lo && (d - 1.0) * hi == d * hi - hi;
    }
  }

  lemma QuotientInBounds(x: real, n: nat, lo: real, hi: real)
    requires n > 0 && n as real * lo <= x <= n as real * hi
    ensures lo <= Mean(x, n) <= hi
  {
    var q := Mean(x, n);
    assert n as real * q == x;
    assert n as real * (lo - q) <= 0.0 && n as real * (q - hi) <= 0.0;
  }

  /** So the average gap stays within every bound that the gaps in the window satisfy. */
  lemma AverageInBounds(a: seq<real>, first: real, w2: nat, k: nat, lo: real, hi: real)
    requires 0 < k < |a| && w2 > 0 && (k >= w2 || a[0] == first)
    requires forall l | k - Min(k, w2) < l <= k :: lo <= a[l] - a[l - 1] <= hi
    ensures lo <= Average(a, first, w2, k) <= hi
  {
    hide Average;
    var m := Min(k, w2);
    AverageTelescopes(a, first, w2, k);
    SpanInBounds(a, k - m, k, lo, hi);
    QuotientInBounds(a[k] - a[k - m], m, lo, hi);
  }

  // ------------------------------------------------------------------ the timeout, in arrival times alone

  /** x is the average gap after heartbeat j. */
  ghost predicate IsAverage(x: real, a: seq<real>, first: real, w2: nat, j: nat)
    requires j < |a|
  {
    if j == 0 then x == 50.0 else if j < w2 then x * j as real == a[j] - first else x * w2 as real == a[j] - a[j - w2]
  }

  lemma AverageIs(a: seq<real>, first: real, w2: nat, k: nat, x: real)
    requires w2 > 0 && k < |a| && IsAverage(x, a, first, w2, k)
    ensures Average(a, first, w2, k) == x
  {
    if k > 0 {
      WindowTelescopes(a[..k + 1], first, w2);
      var sum, m := WindowSum(Gaps(a[..k + 1], first), w2), Min(k, w2);
      assert sum == a[k] - if k < w2 then first else a[k - w2];
      assert Mean(sum, m) * m as real == sum == x * m as real;
      SameFactor(Mean(sum, m), x, m as real);
    }
  }

  lemma SameFactor(x: real, y: real, c: real)
    requires c != 0.0 && x * c == y * c
    ensures x == y
  {
    assert x == x * c / c && y == y * c / c;
  }

  lemma SomeAverage(a: seq<real>, first: real, w2: nat, k: nat)
    requires w2 > 0 && k < |a|
    ensures IsAverage(Average(a, first, w2, k), a, first, w2, k)
  {
    var span, m := if k < w2 then a[k] - first else a[k] - a[k - w2], if k < w2 then k else w2;
    var x := if k == 0 then 50.0 else span / m as real;
    assert k > 0 ==> x * m as real == span;
    AverageIs(a, first, w2, k, x);
  }

  /** x is how much later heartbeat j came than `average`, the average gap before it, said. */
  ghost predicate IsOffset(x: real, a: seq<real>, first: real, average: real, j: nat)
    requires j < |a|
  {
    if j == 0 then x == a[0] - first else x == a[j] - first - j as real * average
  }

  lemma OffsetIs(a: seq<real>, first: real, w2: nat, j: nat, average: real, x: real)
    requires w2 > 0 && j < |a| && IsOffset(x, a, first, average, j)
    requires j > 0 ==> IsAverage(average, a, first, w2, j - 1)
    ensures Normalized(a, first, w2, j) == x
  {
    hide Average, IsAverage;
    if j > 0 {
      AverageIs(a, first, w2, j - 1, average);
      assert Normalized(a, first, w2, j) == Offset(a[j] - first, j, average);
    }
  }

  /** A window with this sum of offsets, divided by n, estimates e. */
  ghost predicate IsEstimate(e: real, sum: real, n: nat, k: nat, average: real) {
    n as real * (e - (k + 1) as real * average) == sum
  }

  lemma EstimateIs(a: seq<real>, first: real, w: nat, w2: nat, average: real, sum: real, e: real)
    requires 0 < w && 0 < w2 && |a| > 1 && IsAverage(average, a, first, w2, |a| - 1)
    requires WindowSum(AllNormalized(a, first, w2), w) == sum
    requires IsEstimate(e, sum, Min(|a| - 1, w), |a| - 1, average)
    ensures Estimate(a, first, w, w2, |a| - 1) == e
  {
    hide Average, AllNormalized, Predicted, WindowSum, IsEstimate, IsAverage;
    var k := |a| - 1;
    assert a[..k + 1] == a;
    AverageIs(a, first, w2, k, average);
    PredictedIs(sum, Min(k, w), k, average, e);
  }

  lemma PredictedIs(sum: real, n: nat, k: nat, average: real, e: real)
    requires n > 0 && IsEstimate(e, sum, n, k, average)
    ensures Predicted(sum, n, k, average) == e
  {
    var base := (k + 1) as real * average;
    var q := 1.0 / n as real * sum;
    assert q * n as real == sum;
    SameFactor(q, e - base, n as real);
  }

  /**
   The timeout for any arrivals. avg[j] is the average gap after heartbeat j: the time over the last min(j, w2)
   gaps, with the time of the model's creation in place of the heartbeat before the first one, by their
   number; 50 for the first one. off[j] is how much later heartbeat j came than the average before it said.
   Each window estimates k + 1 average gaps after the start and then the mean offset in it, where it divides
   by no more than k; the timeout ends 50 after the later estimate.
   */
  lemma TimeoutIs(a: seq<real>, first: real, w1: nat, w2: nat, avg: seq<real>, off: seq<real>, e1: real, e2: real)
    requires 0 < w1 && 0 < w2 && |a| > 1 && |avg| == |off| == |a| && avg[0] == 50.0 && off[0] == a[0] - first
    requires forall j {:trigger avg[j]} | 0 < j < |a| ::
               if j < w2 then avg[j] * j as real == a[j] - first else avg[j] * w2 as real == a[j] - a[j - w2]
    requires forall j {:trigger off[j]} | 0 < j < |a| :: off[j] == a[j] - first - j as real * avg[j - 1]
    requires var k := |a| - 1;
             var n, lo := if k < w1 then k else w1, if k + 1 < w1 then 0 else k + 1 - w1;
             n as real * (e1 - (k + 1) as real * avg[k]) == Sum(off, lo, k + 1)
    requires var k := |a| - 1;
             var n, lo := if k < w2 then k else w2, if k + 1 < w2 then 0 else k + 1 - w2;
             n as real * (e2 - (k + 1) as real * avg[k]) == Sum(off, lo, k + 1)
    ensures Timeout(a, first, w1, w2) == (if e1 > e2 then e1 else e2) + 50.0 - (a[|a| - 1] - first)
  {
    hide Timeout, Sum, AllNormalized;
    OffsetsAre(a, first, w2, avg, off);
    LaterEstimate(a, first, w1, w2, avg[|a| - 1], off, e1, e2);
  }

  lemma OffsetsAre(a: seq<real>, first: real, w2: nat, avg: seq<real>, off: seq<real>)
    requires 0 < w2 && |a| > 1 && |avg| == |off| == |a| && avg[0] == 50.0 && off[0] == a[0] - first
    requires forall j {:trigger avg[j]} | 0 < j < |a| ::
               if j < w2 then avg[j] * j as real == a[j] - first else avg[j] * w2 as real == a[j] - a[j - w2]
    requires forall j {:trigger off[j]} | 0 < j < |a| :: off[j] == a[j] - first - j as real * avg[j - 1]
    ensures AllNormalized(a, first, w2) == off && IsAverage(avg[|a| - 1], a, first, w2, |a| - 1)
  {
    hide Normalized;
    forall j | 0 <= j < |a|
      ensures AllNormalized(a, first, w2)[j] == off[j]
    {
      OffsetIs(a, first, w2, j, if j == 0 then 0.0 else avg[j - 1], off[j]);
    }
  }

  lemma LaterEstimate(a: seq<real>, first: real, w1: nat, w2: nat, average: real, off: seq<real>, e1: real, e2: real)
    requires 0 < w1 && 0 < w2 && |a| > 1 && IsAverage(average, a, first, w2, |a| - 1)
    requires AllNormalized(a, first, w2) == off
    requires var k := |a| - 1;
             var n, lo := if k < w1 then k else w1, if k + 1 < w1 then 0 else k + 1 - w1;
             n as real * (e1 - (k + 1) as real * average) == Sum(off, lo, k + 1)
    requires var k := |a| - 1;
             var n, lo := if k < w2 then k else w2, if k + 1 < w2 then 0 else k + 1 - w2;
             n as real * (e2 - (k + 1) as real * average) == Sum(off, lo, k + 1)
    ensures Timeout(a, first, w1, w2) == (if e1 > e2 then e1 else e2) + 50.0 - (a[|a| - 1] - first)
  {
    hide Estimate, AllNormalized, Sum, IsAverage;
    EstimateIs(a, first, w1, w2, average, Sum(off, Start(|a|, w1), |a|), e1);
    EstimateIs(a, first, w2, w2, average, Sum(off, Start(|a|, w2), |a|), e2);
  }

  /** There are such averages and offsets for all arrivals, so that this determines every timeout. */
  lemma TimeoutDetermined(a: seq<real>, first: real, w2: nat) returns (avg: seq<real>, off: seq<real>)
    requires w2 > 0 && a != []
    ensures |avg| == |off| == |a| && avg[0] == 50.0 && off[0] == a[0] - first
    ensures forall j {:trigger avg[j]} | 0 < j < |a| ::
              if j < w2 then avg[j] * j as real == a[j] - first else avg[j] * w2 as real == a[j] - a[j - w2]
    ensures forall j {:trigger off[j]} | 0 < j < |a| :: off[j] == a[j] - first - j as real * avg[j - 1]
  {
    hide Average;
    avg := seq(|a|, j requires 0 <= j < |a| => Average(a, first, w2, j));
    off := AllNormalized(a, first, w2);
    forall j | 0 <= j < |a|
      ensures IsAverage(avg[j], a, first, w2, j)
    {
      SomeAverage(a, first, w2, j);
    }
  }

  /** The first heartbeat is waited for 100 from the start. */
  lemma FirstTimeout(t: real, first: real, w1: nat, w2: nat)
    requires w1 > 0 && w2 > 0
    ensures Timeout([t], first, w1, w2) == 100.0 - (t - first)
  {
  }

  /** Heartbeats in time, and then one that is 100 late: the mean offset of the small window counts. */
  lemma LateHeartbeat(a: seq<real>)
    requires |a| == 12 && (forall j | 0 <= j < 11 :: a[j] == j as real * 50.0) && a[11] == 650.0
    ensures Timeout(a, 0.0, 10, 10000) == 1310.0 / 11.0
  {
    var avg := seq(12, j => if j < 11 then 50.0 else 650.0 / 11.0);
    var off := seq(12, j => if j < 11 then 0.0 else 100.0);
    assert avg[11] * 11.0 == 650.0;
    var base := 12.0 * avg[11];
    assert base == 7800.0 / 11.0;
    SumOfZeros(off, 0, 11);
    SumOfZeros(off, 2, 11);
    TimeoutIs(a, 0.0, 10, 10000, avg, off, base + 10.0, base + 100.0 / 11.0);
  }

  lemma {:induction false} SumOfZeros(s: seq<real>, lo: nat, hi: nat)
    requires lo <= hi <= |s| && forall j | lo <= j < hi :: s[j] == 0.0
    ensures Sum(s, lo, hi) == 0.0
    decreases hi - lo
  {
    if lo < hi {
      SumOfZeros(s, lo, hi - 1);
    }
  }

  // ------------------------------------------------------------------ shifted clocks

  function Shifted(a: seq<real>, c: real): (r: seq<real>)
    ensures |r| == |a|
  {
    seq(|a|, j requires 0 <= j < |a| => a[j] + c)
  }

  lemma ShiftKeepsAverage(a: seq<real>, first: real, w2: nat, k: nat, c: real)
    requires k < |a| && w2 > 0
    ensures Average(Shifted(a, c), first + c, w2, k) == Average(a, first, w2, k)
  {
    assert Gaps(Shifted(a, c)[..k + 1], first + c) == Gaps(a[..k + 1], first);
  }

  /** Only time differences matter: another time origin changes no timeout. */
  lemma ShiftKeepsTimeout(a: seq<real>, first: real, w1: nat, w2: nat, c: real)
    requires a != [] && w1 > 0 && w2 > 0
    ensures Timeout(Shifted(a, c), first + c, w1, w2) == Timeout(a, first, w1, w2)
  {
    hide Average, Predicted, WindowSum;
    var b := Shifted(a, c);
    assert b[..|a|] == b && a[..|a|] == a;
    forall k: nat | k < |a|
      ensures Normalized(b, first + c, w2, k) == Normalized(a, first, w2, k)
    {
      if k > 0 {
        ShiftKeepsAverage(a, first, w2, k - 1, c);
      }
    }
    assert AllNormalized(b, first + c, w2) == AllNormalized(a, first, w2);
    ShiftKeepsAverage(a, first, w2, |a| - 1, c);
  }

  // ------------------------------------------------------------------ strictly periodic heartbeats

  ghost predicate Periodic(a: seq<real>, first: real, p: real) {
    a != [] && a[0] == first && forall j | 0 < j < |a| :: a[j] - a[j - 1] == p
  }

  lemma {:induction false} PeriodicTimes(a: seq<real>, first: real, p: real, k: nat)
    requires Periodic(a, first, p) && k < |a|
    ensures a[k] == first + k as real * p
  {
    if k > 0 {
      PeriodicTimes(a, first, p, k - 1);
      assert k as real * p == (k - 1) as real * p + p;
    }
  }

  lemma PeriodicAverage(a: seq<real>, first: real, w2: nat, p: real, k: nat)
    requires Periodic(a, first, p) && k < |a| && w2 > 0
    ensures Average(a, first, w2, k) == if k == 0 then HEARTBEAT_INTERVAL else p
  {
    if k > 0 {
      AverageInBounds(a, first, w2, k, p, p);
    }
  }

  /** Only the first heartbeat after the start is off its predicted time, since the average starts at 50. */
  lemma PeriodicNormalized(a: seq<real>, first: real, w2: nat, p: real, k: nat)
    requires Periodic(a, first, p) && k < |a| && w2 > 0
    ensures Normalized(a, first, w2, k) == if k == 1 then p - HEARTBEAT_INTERVAL else 0.0
  {
    hide Average;
    PeriodicTimes(a, first, p, k);
    if k > 0 {
      PeriodicAverage(a, first, w2, p, k - 1);
    }
  }

  lemma {:induction false} PeriodicSum(a: seq<real>, first: real, w2: nat, p: real, lo: nat, hi: nat)
    requires Periodic(a, first, p) && lo <= hi <= |a| && w2 > 0
    ensures Sum(AllNormalized(a, first, w2), lo, hi) == if lo <= 1 < hi then p - HEARTBEAT_INTERVAL else 0.0
    decreases hi - lo
  {
    hide Normalized;
    if lo < hi {
      PeriodicSum(a, first, w2, p, lo, hi - 1);
      PeriodicNormalized(a, first, w2, p, hi - 1);
    }
  }

  /** While the second heartbeat is in the window of k + 1 samples its offset is spread over min(k, w) of them. */
  function Residue(p: real, k: nat, w: nat): real
    requires k > 0 && w > 0
  {
    if k <= w then (p - HEARTBEAT_INTERVAL) / k as real else 0.0
  }

  lemma PeriodicEstimate(a: seq<real>, first: real, w: nat, w2: nat, p: real)
    requires Periodic(a, first, p) && |a| > 1 && w > 0 && w2 > 0
    ensures var k := |a| - 1;
            Estimate(a, first, w, w2, k) == Residue(p, k, w) + (k + 1) as real * p
  {
    hide Average, AllNormalized;
    var k := |a| - 1;
    PeriodicAverage(a, first, w2, p, k);
    assert a[..k + 1] == a;
    PeriodicSum(a, first, w2, p, Start(|a|, w), |a|);
    var d := p - HEARTBEAT_INTERVAL;
    assert 1.0 / k as real * d == d / k as real;
  }

  /** The timeout under strictly periodic heartbeats, in closed form. */
  lemma PeriodicTimeout(a: seq<real>, first: real, w1: nat, w2: nat, p: real)
    requires Periodic(a, first, p) && 0 < w1 <= w2
    ensures var k := |a| - 1;
            Timeout(a, first, w1, w2) ==
              if k == 0 then 100.0
              else
                var r1, r2 := Residue(p, k, w1), Residue(p, k, w2);
                p + HEARTBEAT_INTERVAL + if r1 > r2 then r1 else r2
  {
    hide Estimate, Residue;
    var k := |a| - 1;
    PeriodicTimes(a, first, p, k);
    if k > 0 {
      PeriodicEstimate(a, first, w1, w2, p);
      PeriodicEstimate(a, first, w2, w2, p);
      assert (k + 1) as real * p == k as real * p + p;
    }
  }

  /** It is above the period, 100 if the period is 50, and 50 above the period once both windows have moved on. */
  lemma PeriodicTimeoutIsSafe(a: seq<real>, first: real, w1: nat, w2: nat, p: real)
    requires Periodic(a, first, p) && 0 < w1 <= w2 && p > 0.0
    ensures var k, timeout := |a| - 1, Timeout(a, first, w1, w2);
            && (k >= 1 ==> timeout > p)
            && (p == HEARTBEAT_INTERVAL ==> timeout == 100.0)
            && (k > w2 ==> timeout == p + HEARTBEAT_INTERVAL)
            && (w1 < k <= w2 ==> (timeout == p + HEARTBEAT_INTERVAL <==> p <= HEARTBEAT_INTERVAL))
  {
    hide Timeout;
    PeriodicTimeout(a, first, w1, w2, p);
    var k := |a| - 1;
    if k > 0 {
      ResidueBounds(p, k);
    }
  }

  lemma ResidueBounds(p: real, k: nat)
    requires k > 0 && p > 0.0
    ensures var r := (p - HEARTBEAT_INTERVAL) / k as real;
            && r > 0.0 - HEARTBEAT_INTERVAL
            && (r > 0.0 <==> p > HEARTBEAT_INTERVAL) && (r == 0.0 <==> p == HEARTBEAT_INTERVAL)
  {
    var r := (p - HEARTBEAT_INTERVAL) / k as real;
    assert r * k as real == p - HEARTBEAT_INTERVAL;
  }
}
