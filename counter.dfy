/**
  The animated statistic counter of the About section (`AnimatedCounter` in
  src/components/About.tsx).

  Once the counter has been seen on screen, an animation-frame loop shows
  `floor(min(elapsed / (duration * 1000), 1) * end)` on every frame and asks for
  another frame while that progress is below 1. Frame timestamps are integer
  milliseconds handed in by the caller, the formula is evaluated exactly, and
  the rendered text is the count in decimal followed by the suffix.
 */
module Counter {

  /** Defaults of the component's optional properties. */
  const DefaultDuration: nat := 2
  const DefaultSuffix: string := ""

  function MinReal(a: real, b: real): real {
    if a <= b then a else b
  }

  /** The frame's progress, `Math.min(elapsed / (duration * 1000), 1)`, as an exact real. */
  ghost function Progress(elapsed: nat, duration: nat): real
    requires duration > 0
  {
    MinReal(elapsed as real / (duration * 1000) as real, 1.0)
  }

  /** `Math.floor(progress * end)` with the progress above, over exact reals. */
  ghost function ExactCount(elapsed: nat, duration: nat, end: int): int
    requires duration > 0
  {
    (Progress(elapsed, duration) * end as real).Floor
  }

  /** The count shown `elapsed` milliseconds after the first frame, over the integers. */
  function CountAt(elapsed: nat, duration: nat, end: int): (count: int)
    requires duration > 0
    ensures elapsed == 0 ==> count == 0
    ensures elapsed >= duration * 1000 ==> count == end
    ensures 0 <= end ==> 0 <= count <= end
  {
    var total := duration * 1000;
    if elapsed >= total then end
    else
      ScaledWithinTarget(elapsed, total, end);
      (elapsed * end) / total
  }

  /** A fraction e/total below 1 of a non-negative target stays within [0, target]. */
  lemma ScaledWithinTarget(e: nat, total: nat, end: int)
    requires e < total
    ensures e == 0 ==> (e * end) / total == 0
    ensures 0 <= end ==> 0 <= (e * end) / total <= end
  {
    if 0 <= end {
      MulLeft(e, total, end);
      DivMonotone(e * end, total * end, total);
      DivOfMultiple(end, total);
    }
  }

  /** a <= b scales by a non-negative factor. */
  lemma MulLeft(a: int, b: int, c: int)
    ensures a <= b && 0 <= c ==> a * c <= b * c
  {
  }

  lemma DivOfMultiple(a: int, d: int)
    requires d > 0
    ensures (d * a) / d == a
  {
    var q, r := (d * a) / d, (d * a) % d;
    assert d * a == d * q + r && 0 <= r < d;
    assert (a - q) * d == r;
    MulLeft(1, a - q, d);
    MulLeft(a - q, -1, d);
  }

  lemma DivMonotone(x: int, y: int, d: int)
    requires d > 0 && x <= y
    ensures x / d <= y / d
  {
    var qx, qy := x / d, y / d;
    assert d * qx <= x;
    assert y < d * (qy + 1);
    MulLeft(qy + 1, qx, d);
  }

  /** Euclidean division by a positive divisor is the floor of the real quotient. */
  lemma FloorOfQuotient(x: int, y: int)
    requires y > 0
    ensures (x as real / y as real).Floor == x / y
  {
    var q, r := x / y, x % y;
    assert x == y * q + r;
    assert x as real == y as real * q as real + r as real;
    assert x as real / y as real == q as real + r as real / y as real;
    assert 0.0 <= r as real / y as real < 1.0;
  }

  /** The integer formula is the component's formula evaluated exactly. */
  lemma CountAtIsExact(elapsed: nat, duration: nat, end: int)
    requires duration > 0
    ensures CountAt(elapsed, duration, end) == ExactCount(elapsed, duration, end)
  {
    var total := duration * 1000;
    var ratio := elapsed as real / total as real;
    if elapsed >= total {
      assert ratio >= 1.0;
      assert Progress(elapsed, duration) == 1.0;
    } else {
      assert ratio < 1.0;
      assert Progress(elapsed, duration) == ratio;
      assert ratio * end as real == (elapsed * end) as real / total as real;
      FloorOfQuotient(elapsed * end, total);
    }
  }

  /** For a non-negative target, the count never goes down as time passes. */
  lemma CountAtMonotone(e1: nat, e2: nat, duration: nat, end: int)
    requires duration > 0 && 0 <= end && e1 <= e2
    ensures CountAt(e1, duration, end) <= CountAt(e2, duration, end)
  {
    var total := duration * 1000;
    if e2 < total {
      MulLeft(e1, e2, end);
      DivMonotone(e1 * end, e2 * end, total);
    }
  }

  /** With the default duration, a target of 100 shows 50 one second in. */
  lemma HalfwayExample()
    ensures CountAt(1000, DefaultDuration, 100) == 50
  {
  }

  predicate Sorted(frames: seq<nat>) {
    forall i, j :: 0 <= i <= j < |frames| ==> frames[i] <= frames[j]
  }

  /** The start time held after the frames `seen`. `if (!startTime)` treats an unset
      start and a start of 0 alike, so this is the first non-zero timestamp seen,
      or 0 while there is none. */
  function StartTime(seen: seq<nat>): (start: nat)
    ensures start == 0 ==> forall i :: 0 <= i < |seen| ==> seen[i] == 0
    ensures Sorted(seen) && |seen| > 0 ==> start <= seen[|seen| - 1]
    decreases |seen|
  {
    if |seen| == 0 then 0
    else
      var earlier := StartTime(seen[..|seen| - 1]);
      if earlier != 0 then earlier else seen[|seen| - 1]
  }

  /** The start time is 0 or one of the timestamps seen. */
  lemma {:induction false} StartTimeSeen(seen: seq<nat>)
    ensures StartTime(seen) == 0 || StartTime(seen) in seen
    decreases |seen|
  {
    if |seen| > 0 {
      var earlier := seen[..|seen| - 1];
      StartTimeSeen(earlier);
      assert forall x :: x in earlier ==> x in seen;
    }
  }

  /** Once the start time is set, a later frame does not move it. */
  lemma StartTimeStable(seen: seq<nat>, t: nat)
    requires StartTime(seen) != 0
    ensures StartTime(seen + [t]) == StartTime(seen)
  {
    assert (seen + [t])[..|seen|] == seen;
  }

  /** The start time is the first non-zero timestamp seen. */
  lemma {:induction false} StartTimeIsFirstNonZero(seen: seq<nat>, i: nat)
    requires i < |seen| && seen[i] != 0
    requires forall j :: 0 <= j < i ==> seen[j] == 0
    ensures StartTime(seen) == seen[i]
    decreases |seen|
  {
    var earlier := seen[..|seen| - 1];
    if i < |seen| - 1 {
      StartTimeIsFirstNonZero(earlier, i);
    } else {
      assert forall j :: 0 <= j < |earlier| ==> earlier[j] == 0;
      assert StartTime(earlier) == 0;
    }
  }

  /** The start time fixed by frame k1 is the one every later frame measures from. */
  lemma {:induction false} StartTimeKept(frames: seq<nat>, k1: nat, k2: nat)
    requires k1 <= k2 < |frames|
    requires StartTime(frames[..k1 + 1]) != 0
    ensures StartTime(frames[..k2 + 1]) == StartTime(frames[..k1 + 1])
    decreases k2 - k1
  {
    if k1 < k2 {
      StartTimeKept(frames, k1, k2 - 1);
      assert frames[..k2 + 1] == frames[..k2] + [frames[k2]];
      StartTimeStable(frames[..k2], frames[k2]);
    }
  }

  /** Milliseconds from the start time to frame k; the first frame is at 0. */
  function Elapsed(frames: seq<nat>, k: nat): (e: nat)
    requires Sorted(frames) && k < |frames|
    ensures k == 0 ==> e == 0
    ensures e <= frames[k]
  {
    assert Sorted(frames[..k + 1]);
    assert k == 0 ==> (frames[..k + 1] == [frames[0]] && [frames[0]][..0] == []
                       && StartTime([frames[0]]) == frames[0]);
    frames[k] - StartTime(frames[..k + 1])
  }

  /** Elapsed time never goes down from one frame to a later one. */
  lemma ElapsedMonotone(frames: seq<nat>, k1: nat, k2: nat)
    requires Sorted(frames) && k1 <= k2 < |frames|
    ensures Elapsed(frames, k1) <= Elapsed(frames, k2)
  {
    var start := StartTime(frames[..k1 + 1]);
    if start != 0 {
      StartTimeKept(frames, k1, k2);
    } else {
      assert frames[..k1 + 1][k1] == frames[k1];
    }
  }

  /** One frame's bookkeeping: the start time after frame k, and its elapsed time. */
  lemma ElapsedStep(frames: seq<nat>, k: nat, startTime: nat)
    requires Sorted(frames) && k < |frames|
    requires startTime == StartTime(frames[..k])
    ensures StartTime(frames[..k + 1]) == (if startTime == 0 then frames[k] else startTime)
    ensures Elapsed(frames, k) == frames[k] - StartTime(frames[..k + 1])
  {
    assert frames[..k + 1][..k] == frames[..k];
  }

  /** The first frame shows 0, and for a non-negative target the counts shown on
      successive frames never go down. */
  lemma FrameCountsRise(frames: seq<nat>, k1: nat, k2: nat, duration: nat, end: int)
    requires duration > 0 && Sorted(frames) && k1 <= k2 < |frames|
    ensures CountAt(Elapsed(frames, 0), duration, end) == 0
    ensures 0 <= end ==> CountAt(Elapsed(frames, k1), duration, end) <= CountAt(Elapsed(frames, k2), duration, end)
  {
    if 0 <= end {
      ElapsedMonotone(frames, k1, k2);
      CountAtMonotone(Elapsed(frames, k1), Elapsed(frames, k2), duration, end);
    }
  }

  /** The frame loop (lines 10-28) over the frames the browser delivers. Nothing runs
      until the counter is in view. Each frame shows the formula's value for its
      elapsed time; the loop asks for another frame exactly while progress is below 1.
      Returns the last count shown, how many frames it rendered, and whether it
      stopped by itself. */
  method Animate(inView: bool, end: int, duration: nat, frames: seq<nat>)
      returns (count: int, rendered: nat, finished: bool)
    requires duration > 0
    requires Sorted(frames)
    ensures rendered <= |frames|
    ensures !inView ==> count == 0 && rendered == 0 && !finished
    ensures inView && !finished ==> rendered == |frames|
    ensures finished ==> rendered > 0 && Elapsed(frames, rendered - 1) >= duration * 1000 && count == end
    ensures forall k :: 0 <= k < rendered - (if finished then 1 else 0) ==> Elapsed(frames, k) < duration * 1000
    ensures rendered == 0 ==> count == 0
    ensures rendered > 0 ==> count == CountAt(Elapsed(frames, rendered - 1), duration, end)
  {
    count, rendered, finished := 0, 0, false;
    if !inView {
      return;
    }
    var startTime: nat := 0;
    while rendered < |frames| && !finished
      invariant rendered <= |frames|
      invariant startTime == StartTime(frames[..rendered])
      invariant finished ==> rendered > 0 && Elapsed(frames, rendered - 1) >= duration * 1000 && count == end
      invariant forall k :: 0 <= k < rendered - (if finished then 1 else 0) ==> Elapsed(frames, k) < duration * 1000
      invariant rendered == 0 ==> count == 0
      invariant rendered > 0 ==> count == CountAt(Elapsed(frames, rendered - 1), duration, end)
    {
      var currentTime := frames[rendered];
      ElapsedStep(frames, rendered, startTime);
      if startTime == 0 {
        startTime := currentTime;
      }
      var elapsed := currentTime - startTime;
      count := CountAt(elapsed, duration, end);
      finished := !(elapsed < duration * 1000);
      rendered := rendered + 1;
    }
  }

  /** The decimal digits of n, as `String(n)` writes them for a non-negative integer. */
  function NatToDecimal(n: nat): (s: string)
    ensures |s| > 0
    ensures forall i :: 0 <= i < |s| ==> '0' <= s[i] <= '9'
    ensures s[0] == '0' ==> n == 0 && |s| == 1
    decreases n
  {
    if n < 10 then ["0123456789"[n]]
    else NatToDecimal(n / 10) + ["0123456789"[n % 10]]
  }

  predicate IsDigits(s: string) {
    forall i :: 0 <= i < |s| ==> '0' <= s[i] <= '9'
  }

  /** The number a string of decimal digits denotes. */
  function DigitsValue(s: string): nat
    requires IsDigits(s)
    decreases |s|
  {
    if s == [] then 0
    else 10 * DigitsValue(s[..|s| - 1]) + (s[|s| - 1] as int - '0' as int)
  }

  /** `String(n)` for any integer: a minus sign for a negative one. */
  function IntToDecimal(n: int): (s: string)
    ensures |s| > 0 && (if s[0] == '-' then IsDigits(s[1..]) else IsDigits(s))
  {
    if n < 0 then "-" + NatToDecimal(-n) else NatToDecimal(n)
  }

  /** Reads back what `IntToDecimal` writes. */
  function ParseDecimal(s: string): int
    requires |s| > 0 && (if s[0] == '-' then IsDigits(s[1..]) else IsDigits(s))
  {
    if s[0] == '-' then -(DigitsValue(s[1..]) as int) else DigitsValue(s)
  }

  lemma {:induction false} NatToDecimalRoundTrip(n: nat)
    ensures DigitsValue(NatToDecimal(n)) == n
    decreases n
  {
    var s := NatToDecimal(n);
    if n >= 10 {
      NatToDecimalRoundTrip(n / 10);
      assert s[..|s| - 1] == NatToDecimal(n / 10);
    }
  }

  lemma ParseUnsigned(s: string)
    requires |s| > 0 && IsDigits(s)
    ensures ParseDecimal(s) == DigitsValue(s)
  {
    assert s[0] != '-';
  }

  lemma ParseSigned(digits: string)
    requires IsDigits(digits)
    ensures ParseDecimal("-" + digits) == -(DigitsValue(digits) as int)
  {
    assert ("-" + digits)[1..] == digits;
  }

  /** The decimal text of a count reads back as that count. */
  lemma IntToDecimalRoundTrip(n: int)
    ensures ParseDecimal(IntToDecimal(n)) == n
  {
    var m: nat := if n < 0 then -n else n;
    var digits := NatToDecimal(m);
    NatToDecimalRoundTrip(m);
    if n < 0 {
      ParseSigned(digits);
    } else {
      ParseUnsigned(digits);
    }
  }

  /** The text the component renders: the count followed by the suffix (line 30). */
  function Rendered(count: int, suffix: string): (text: string)
    ensures |text| == |IntToDecimal(count)| + |suffix|
    ensures text[..|IntToDecimal(count)|] == IntToDecimal(count)
    ensures text[|IntToDecimal(count)|..] == suffix
    ensures ParseDecimal(text[..|IntToDecimal(count)|]) == count
  {
    var digits := IntToDecimal(count);
    IntToDecimalRoundTrip(count);
    assert (digits + suffix)[..|digits|] == digits;
    digits + suffix
  }

  /** With the defaults, the 100 % statistic reads "50" one second in. */
  lemma RenderedHalfway()
    ensures Rendered(CountAt(1000, DefaultDuration, 100), DefaultSuffix) == "50"
  {
    HalfwayExample();
  }
}
