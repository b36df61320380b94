/**
  The loading splash screen (src/components/LoadingPage.tsx).

  Two intervals run side by side: a progress ticker (every 80 ms) that adds 2 to
  `loadingProgress` until it sees 100, then clears itself and schedules the
  caller's completion callback 500 ms later; and a message rotator (every
  1000 ms) that steps `currentSecurityItem` round the eight status messages
  until the component unmounts. One call is one firing of one interval.
 */
module Loading {

  const ProgressIncrement: int := 2
  const ProgressIntervalMs: nat := 80
  const RotateIntervalMs: nat := 1000
  const CompletionDelayMs: nat := 500

  /** The status messages, in display order. */
  const SecurityMessages: seq<string> := [
    "Initializing Security Protocols...",
    "Encrypting Communications...",
    "Scanning for Threats...",
    "Connecting to Security Operations Center...",
    "Activating Defense Systems...",
    "Enabling Threat Detection...",
    "Loading Security Infrastructure...",
    "Establishing Secure Connection..."
  ]

  const ItemCount: nat := 8

  /** The progress ticker: its value, whether its interval is still armed, and how
      many completion callbacks it has scheduled. */
  datatype Ticker = Ticker(loadingProgress: int, running: bool, completionsScheduled: nat)

  const InitialTicker := Ticker(0, true, 0)

  predicate TickerInv(t: Ticker) {
    0 <= t.loadingProgress <= 100 && t.loadingProgress % 2 == 0
    && t.completionsScheduled <= 1
    && (t.completionsScheduled == 1 ==> !t.running && t.loadingProgress == 100)
  }

  /** The value the updater returns for a previous value `prev`. */
  function NextProgress(prev: int): (r: int)
    ensures prev < 100 ==> r == prev + ProgressIncrement
    ensures prev >= 100 ==> r == 100
    ensures 0 <= prev <= 100 && prev % 2 == 0 ==> prev <= r <= 100 && r % 2 == 0
  {
    if prev >= 100 then 100 else prev + ProgressIncrement
  }

  /** One firing of the progress interval. A cleared interval does not fire, so
      once `running` is false the ticker no longer changes. */
  function ProgressTick(t: Ticker): (r: Ticker)
    ensures TickerInv(t) ==> TickerInv(r)
    ensures TickerInv(t) ==> t.loadingProgress <= r.loadingProgress
    ensures r.completionsScheduled != t.completionsScheduled ==>
      t.running && t.loadingProgress >= 100 && !r.running && r.loadingProgress == 100
      && r.completionsScheduled == t.completionsScheduled + 1
  {
    if !t.running then t
    else if t.loadingProgress >= 100 then Ticker(NextProgress(t.loadingProgress), false, t.completionsScheduled + 1)
    else t.(loadingProgress := NextProgress(t.loadingProgress))
  }

  /** Unmount cleanup: the interval is cleared; clearing twice is harmless. */
  function Cancel(t: Ticker): (r: Ticker)
    ensures !r.running
    ensures r.loadingProgress == t.loadingProgress && r.completionsScheduled == t.completionsScheduled
    ensures TickerInv(t) ==> TickerInv(r)
  {
    t.(running := false)
  }

  function RunTicks(t: Ticker, k: nat): Ticker
    decreases k
  {
    if k == 0 then t else RunTicks(ProgressTick(t), k - 1)
  }

  /** The ticker after n firings from mount. */
  function AfterTicks(n: nat): Ticker {
    if n <= 50 then Ticker(2 * n, true, 0) else Ticker(100, false, 1)
  }

  /** Whatever the firings, the ticker's invariant holds: progress stays even and
      within [0, 100] and at most one completion is ever scheduled. */
  lemma {:induction false} RunKeepsInv(t: Ticker, k: nat)
    requires TickerInv(t)
    ensures TickerInv(RunTicks(t, k))
    ensures t.loadingProgress <= RunTicks(t, k).loadingProgress
    decreases k
  {
    if k > 0 {
      RunKeepsInv(ProgressTick(t), k - 1);
    }
  }

  lemma {:induction false} RunFromAfterTicks(n: nat, k: nat)
    ensures RunTicks(AfterTicks(n), k) == AfterTicks(n + k)
    decreases k
  {
    if k > 0 {
      assert ProgressTick(AfterTicks(n)) == AfterTicks(n + 1);
      RunFromAfterTicks(n + 1, k - 1);
    }
  }

  /** From mount, the ticker reads 2k for k <= 50 firings: it reaches 100 after
      exactly 50. The 51st firing sees 100, clears the interval and schedules the
      completion; no firing ever schedules a second one. */
  lemma ProgressSchedule(k: nat)
    ensures RunTicks(InitialTicker, k) == AfterTicks(k)
    ensures RunTicks(InitialTicker, k).loadingProgress == (if k <= 50 then 2 * k else 100)
    ensures RunTicks(InitialTicker, k).loadingProgress == 100 <==> k >= 50
    ensures RunTicks(InitialTicker, k).completionsScheduled == (if k >= 51 then 1 else 0)
  {
    assert AfterTicks(0) == InitialTicker;
    RunFromAfterTicks(0, k);
  }

  /** One firing of the message rotator. */
  function Rotate(item: nat): (r: nat)
    requires item < ItemCount
    ensures r < ItemCount
    ensures r == 0 <==> item == ItemCount - 1
  {
    (item + 1) % ItemCount
  }

  function RotateTimes(item: nat, k: nat): (r: nat)
    requires item < ItemCount
    ensures r < ItemCount
    decreases k
  {
    if k == 0 then item else RotateTimes(Rotate(item), k - 1)
  }

  /** k firings of the rotator move the message index k places round the list. */
  lemma {:induction false} RotateTimesIsModular(item: nat, k: nat)
    requires item < ItemCount
    ensures RotateTimes(item, k) == (item + k) % ItemCount
    decreases k
  {
    if k > 0 {
      RotateTimesIsModular(Rotate(item), k - 1);
      assert (Rotate(item) + (k - 1)) % ItemCount == (item + k) % ItemCount;
    }
  }

  /** `Math.floor(loadingProgress / 12.5)`, computed exactly over the integers. */
  function ReachedLevel(progress: int): (level: int)
    ensures (level as real) <= (progress as real) / 12.5 < ((level + 1) as real)
  {
    var level := (2 * progress) / 25;
    assert 25 * level <= 2 * progress < 25 * (level + 1);
    assert (progress as real) / 12.5 == (2 * progress) as real / 25.0;
    level
  }

  /** Whether icon `index` is drawn as reached. */
  predicate IconReached(index: nat, progress: int)
    ensures IconReached(index, progress) <==> (index as real) <= (progress as real) / 12.5
  {
    index <= ReachedLevel(progress)
  }

  function ReachedIcons(progress: int): set<nat> {
    set i: nat | i < ItemCount && IconReached(i, progress)
  }

  /** The reached icons only grow as progress grows. */
  lemma ReachedIconsGrow(p: int, q: int)
    requires p <= q
    ensures ReachedIcons(p) <= ReachedIcons(q)
  {
    assert 2 * p <= 2 * q;
    assert ReachedLevel(p) <= ReachedLevel(q) by {
      assert (ReachedLevel(p) as real) <= (q as real) / 12.5;
    }
  }

  /** At 0 % only the first icon is reached; at 100 % all eight are. */
  lemma ReachedIconsAtEnds()
    ensures ReachedIcons(0) == {0}
    ensures ReachedIcons(100) == {0, 1, 2, 3, 4, 5, 6, 7}
  {
    assert ReachedLevel(0) == 0;
    assert ReachedLevel(100) == 8;
  }

  /** The splash screen's state, updated in place by its two intervals. */
  class LoadingScreen {
    var loadingProgress: int
    var currentSecurityItem: nat
    var progressRunning: bool
    var rotatorRunning: bool
    var completionsScheduled: nat

    ghost predicate Valid()
      reads this
    {
      TickerInv(TickerState()) && currentSecurityItem < ItemCount
    }

    function TickerState(): Ticker
      reads this
    {
      Ticker(loadingProgress, progressRunning, completionsScheduled)
    }

    constructor ()
      ensures Valid() && TickerState() == InitialTicker
      ensures currentSecurityItem == 0 && rotatorRunning
    {
      loadingProgress := 0;
      currentSecurityItem := 0;
      progressRunning := true;
      rotatorRunning := true;
      completionsScheduled := 0;
    }

    /** The message shown under the spinner; always in bounds. */
    function CurrentMessage(): (m: string)
      reads this
      requires Valid()
      ensures m in SecurityMessages
    {
      SecurityMessages[currentSecurityItem]
    }

    /** One firing of the progress interval (lines 26-35). It leaves the rotator alone. */
    method OnProgressInterval()
      requires Valid()
      modifies this
      ensures Valid()
      ensures TickerState() == ProgressTick(old(TickerState()))
      ensures currentSecurityItem == old(currentSecurityItem) && rotatorRunning == old(rotatorRunning)
    {
      if !progressRunning {
        return;
      }
      if loadingProgress >= 100 {
        progressRunning := false;
        completionsScheduled := completionsScheduled + 1;
        loadingProgress := 100;
      } else {
        loadingProgress := loadingProgress + ProgressIncrement;
      }
    }

    /** One firing of the rotator (lines 41-43). It runs whatever the progress is,
        and leaves the ticker alone. */
    method OnRotateInterval()
      requires Valid()
      modifies this
      ensures Valid()
      ensures currentSecurityItem == if old(rotatorRunning) then Rotate(old(currentSecurityItem)) else old(currentSecurityItem)
      ensures TickerState() == old(TickerState()) && rotatorRunning == old(rotatorRunning)
    {
      if rotatorRunning {
        currentSecurityItem := (currentSecurityItem + 1) % ItemCount;
      }
    }

    /** Unmount cleanup of both effects (lines 37 and 45): both intervals are cleared;
        an already scheduled completion is not withdrawn. */
    method Unmount()
      requires Valid()
      modifies this
      ensures Valid()
      ensures TickerState() == Cancel(old(TickerState()))
      ensures !rotatorRunning && currentSecurityItem == old(currentSecurityItem)
    {
      progressRunning := false;
      rotatorRunning := false;
    }
  }
}
