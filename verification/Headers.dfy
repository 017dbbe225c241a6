/**
  The rules of the header chain (consensus/state.go, consensus/update.go:10-40,
  consensus/validation.go:22-43), and what they mean for the whole chain.
 */
module Headers {
  import opened Types
  import opened Sorting

  /** Work values are 256-bit numbers. */
  const WORK_LIMIT: nat := 0x1_0000_0000_0000_0000_0000_0000_0000_0000_0000_0000_0000_0000_0000_0000_0000_0000

  /** 10 * time.Minute */
  const BLOCK_INTERVAL: int := 600 * SECOND

  const DIFFICULTY_ADJUSTMENT_INTERVAL: nat := 2016

  /** len(State.PrevTimestamps) */
  const WINDOW: nat := 11

  /** time.Time{} */
  const ZERO_TIME: int := -62135596800 * SECOND

  /** Time.Sub: durations are 64-bit and saturate. */
  function TimeSub(a: int, b: int): int {
    var d := a - b;
    if d > 0x7FFF_FFFF_FFFF_FFFF then 0x7FFF_FFFF_FFFF_FFFF
    else if d < -0x8000_0000_0000_0000 then -0x8000_0000_0000_0000
    else d
  }

  const EXPECTED_DELTA: int := BLOCK_INTERVAL * DIFFICULTY_ADJUSTMENT_INTERVAL

  function ActualDelta(lastAdjust: int, timestamp: int): (delta: int)
    ensures EXPECTED_DELTA / 4 <= delta <= EXPECTED_DELTA * 4
    ensures 302_400_000_000_000 <= timestamp - lastAdjust <= 4_838_400_000_000_000 ==> delta == timestamp - lastAdjust
    ensures timestamp - lastAdjust < 302_400_000_000_000 ==> delta == 302_400_000_000_000
    ensures timestamp - lastAdjust > 4_838_400_000_000_000 ==> delta == 4_838_400_000_000_000
  {
    var delta := TimeSub(timestamp, lastAdjust);
    if delta > EXPECTED_DELTA * 4 then EXPECTED_DELTA * 4
    else if delta < EXPECTED_DELTA / 4 then EXPECTED_DELTA / 4
    else delta
  }

  /** Work.Mul64, which wraps. */
  function WorkMul(w: nat, v: nat): nat {
    (w * v) % WORK_LIMIT
  }

  /** Work.Div64 */
  function WorkDiv(w: nat, v: nat): (q: nat)
    requires v > 0
    ensures q * v <= w < (q + 1) * v
  {
    w / v
  }

  /** adjustDifficulty */
  function AdjustDifficulty(difficulty: nat, lastAdjust: int, timestamp: int): nat {
    WorkDiv(WorkMul(difficulty, EXPECTED_DELTA), ActualDelta(lastAdjust, timestamp))
  }

  /** numTimestamps */
  function NumTimestamps(s: State): nat {
    if s.index.height + 1 < WINDOW then s.index.height + 1 else WINDOW
  }

  /** applyHeader */
  function ApplyHeader(s: State, h: BlockHeader): State
    requires |s.prevTimestamps| == WINDOW
  {
    if h.height == 0 then
      s.(prevTimestamps := s.prevTimestamps[0 := h.timestamp], index := h.Index())
    else
      var adjust := h.height % DIFFICULTY_ADJUSTMENT_INTERVAL == 0;
      s.(totalWork := (s.totalWork + s.difficulty) % WORK_LIMIT,
         difficulty := if adjust then AdjustDifficulty(s.difficulty, s.lastAdjust, h.timestamp) else s.difficulty,
         lastAdjust := if adjust then h.timestamp else s.lastAdjust,
         prevTimestamps :=
           if NumTimestamps(s) < WINDOW then s.prevTimestamps[NumTimestamps(s) := h.timestamp]
           else s.prevTimestamps[1..] + [h.timestamp],
         index := h.Index())
  }

  predicate Before(a: int, b: int) {
    a < b
  }

  /** medianTimestamp */
  function MedianTimestamp(s: State): int
    requires |s.prevTimestamps| == WINDOW
  {
    Median(s.prevTimestamps[..NumTimestamps(s)])
  }

  function Median(times: seq<int>): int
    requires |times| > 0
  {
    var ts := Sort(times, Before);
    if |ts| % 2 != 0 then ts[|ts| / 2]
    else
      var l, r := ts[|ts| / 2 - 1], ts[|ts| / 2];
      if r >= l then l + TimeSub(r, l) / 2 else l
  }

  datatype HeaderError = WrongHeight | WrongParentID | InsufficientWork | TimestampTooEarly

  datatype Check<E> = Ok | Err(error: E)

  /** validateHeader; work is the work required for an ID. */
  function ValidateHeader(s: State, h: BlockHeader, work: Hash -> nat): Check<HeaderError>
    requires |s.prevTimestamps| == WINDOW
  {
    if h.height != s.index.height + 1 then Err(WrongHeight)
    else if h.parentID != s.index.id then Err(WrongParentID)
    else if work(h.ID()) < s.difficulty then Err(InsufficientWork)
    else if h.timestamp < MedianTimestamp(s) then Err(TimestampTooEarly)
    else Ok
  }

  // ---------------------------------------------------------------- properties

  lemma MulMonotone(c: nat, a: nat, b: nat)
    requires a <= b
    ensures c * a <= c * b && a * c <= b * c
  {
  }

  lemma WrapsDown(w: nat, v: nat)
    ensures WorkMul(w, v) <= w * v && (w * v < WORK_LIMIT ==> WorkMul(w, v) == w * v)
  {
  }

  /** Dividing at most d * (4 * f) by a delay between f and 16 * f. */
  lemma QuotientBounds(d: nat, f: nat, a: nat, w: nat, q: nat)
    requires 0 < f <= a <= 16 * f && q * a <= w < (q + 1) * a && w <= d * (4 * f)
    ensures q <= 4 * d
    ensures w == d * (4 * f) ==> d / 4 <= q
  {
    MulMonotone(q + 1, a, 16 * f);
    assert (q + 1) * (16 * f) == (4 * (q + 1)) * (4 * f);
    assert (4 * d + 1) * f == d * (4 * f) + f;
    if w == d * (4 * f) && 4 * (q + 1) <= d {
      MulMonotone(4 * f, 4 * (q + 1), d);
      assert false;
    }
    if q > 4 * d {
      MulMonotone(a, 4 * d + 1, q);
      MulMonotone(4 * d + 1, f, a);
      assert false;
    }
  }

  /** The difficulty never grows by more than a factor of four, nor falls by more unless the product overflows. */
  lemma DifficultyBounds(difficulty: nat, lastAdjust: int, timestamp: int)
    ensures AdjustDifficulty(difficulty, lastAdjust, timestamp) <= 4 * difficulty
    ensures difficulty * EXPECTED_DELTA < WORK_LIMIT ==>
      difficulty / 4 <= AdjustDifficulty(difficulty, lastAdjust, timestamp)
  {
    hide WorkMul, WorkDiv, ActualDelta;
    WrapsDown(difficulty, EXPECTED_DELTA);
    QuotientBounds(difficulty, EXPECTED_DELTA / 4, ActualDelta(lastAdjust, timestamp),
                   WorkMul(difficulty, EXPECTED_DELTA), AdjustDifficulty(difficulty, lastAdjust, timestamp));
  }

  /**
    The difficulty falls to zero, for which no target exists, exactly when what
    is left of the product is less than the delay.
   */
  lemma DifficultyVanishes(difficulty: nat, lastAdjust: int, timestamp: int)
    ensures AdjustDifficulty(difficulty, lastAdjust, timestamp) == 0 <==>
      WorkMul(difficulty, EXPECTED_DELTA) < ActualDelta(lastAdjust, timestamp)
  {
    hide WorkMul, WorkDiv, ActualDelta;
    ZeroQuotient(WorkMul(difficulty, EXPECTED_DELTA), ActualDelta(lastAdjust, timestamp),
                 AdjustDifficulty(difficulty, lastAdjust, timestamp));
  }

  /** A small difficulty, of 3 or less, vanishes when the period takes four times as long as it should. */
  lemma SmallVanishes(difficulty: nat, lastAdjust: int)
    requires difficulty <= 3
    ensures AdjustDifficulty(difficulty, lastAdjust, lastAdjust + 4 * EXPECTED_DELTA) == 0
  {
    hide WorkDiv;
    DifficultyVanishes(difficulty, lastAdjust, lastAdjust + 4 * EXPECTED_DELTA);
  }

  /** A huge one vanishes whatever the delay: the product is a multiple of 2^256. */
  lemma HugeVanishes(lastAdjust: int, timestamp: int)
    ensures AdjustDifficulty(WORK_LIMIT / 0x2_0000, lastAdjust, timestamp) == 0
  {
    hide WorkDiv, ActualDelta;
    DifficultyVanishes(WORK_LIMIT / 0x2_0000, lastAdjust, timestamp);
  }

  /** Whatever the difficulty was, it is a 256-bit number afterwards. */
  lemma DifficultyFits(difficulty: nat, lastAdjust: int, timestamp: int)
    ensures AdjustDifficulty(difficulty, lastAdjust, timestamp) < WORK_LIMIT
  {
    hide ActualDelta, WorkDiv;
    var a := ActualDelta(lastAdjust, timestamp);
    var q := WorkDiv(WorkMul(difficulty, EXPECTED_DELTA), a);
    MulMonotone(q, 1, a);
  }

  /** Adding 256-bit numbers: the sum falls below what it was exactly when it wraps. */
  lemma WorkWraps(total: nat, difficulty: nat)
    requires total < WORK_LIMIT && difficulty < WORK_LIMIT
    ensures total <= (total + difficulty) % WORK_LIMIT <==> total + difficulty < WORK_LIMIT
  {
  }

  lemma ZeroQuotient(w: nat, v: nat, q: nat)
    requires v > 0 && q * v <= w < (q + 1) * v
    ensures q == 0 <==> w < v
  {
    if q > 0 {
      MulMonotone(v, 1, q);
    }
  }

  /** A header adds the difficulty to the total work, which falls exactly when the sum wraps. */
  lemma TotalWraps(s: State, h: BlockHeader)
    requires |s.prevTimestamps| == WINDOW && s.totalWork < WORK_LIMIT && s.difficulty < WORK_LIMIT && h.height > 0
    ensures s.totalWork <= ApplyHeader(s, h).totalWork <==> s.totalWork + s.difficulty < WORK_LIMIT
  {
    hide AdjustDifficulty;
    WorkWraps(s.totalWork, s.difficulty);
  }

  /**
    Every 2016 blocks the difficulty is multiplied by the time that the period
    should have taken, two weeks, and divided by the time t that it took,
    within a quarter and four times of that: D * E / t, rounded down.  The
    product wraps around at 2^256.  All other headers leave it alone.
   */
  lemma DifficultyFollowsTime(s: State, h: BlockHeader)
    requires |s.prevTimestamps| == WINDOW && h.height > 0
    ensures h.height % 2016 != 0 ==>
      ApplyHeader(s, h).difficulty == s.difficulty && ApplyHeader(s, h).lastAdjust == s.lastAdjust
    ensures h.height % 2016 == 0 ==>
      var after, t := ApplyHeader(s, h), ActualDelta(s.lastAdjust, h.timestamp);
      after.lastAdjust == h.timestamp &&
      after.difficulty * t <= s.difficulty * 1_209_600_000_000_000 % WORK_LIMIT < (after.difficulty + 1) * t
    ensures h.height % 2016 == 0 && s.difficulty * 1_209_600_000_000_000 < WORK_LIMIT ==>
      var after, t := ApplyHeader(s, h), ActualDelta(s.lastAdjust, h.timestamp);
      after.difficulty * t <= s.difficulty * 1_209_600_000_000_000 < (after.difficulty + 1) * t
  {
    hide WorkDiv;
    WrapsDown(s.difficulty, 1_209_600_000_000_000);
  }

  /** The longer a period took, the lower the next difficulty. */
  lemma SlowerIsEasier(s: State, h: BlockHeader, later: BlockHeader)
    requires |s.prevTimestamps| == WINDOW && h.height == later.height > 0 && h.timestamp <= later.timestamp
    ensures ApplyHeader(s, later).difficulty <= ApplyHeader(s, h).difficulty
  {
    DifficultyFollowsTime(s, h);
    DifficultyFollowsTime(s, later);
    hide ApplyHeader, WorkMul;
    if h.height % 2016 == 0 {
      QuotientFalls(s.difficulty * 1_209_600_000_000_000 % WORK_LIMIT, ActualDelta(s.lastAdjust, h.timestamp),
                    ActualDelta(s.lastAdjust, later.timestamp), ApplyHeader(s, h).difficulty,
                    ApplyHeader(s, later).difficulty);
    }
  }

  lemma QuotientFalls(w: nat, a: nat, b: nat, p: nat, q: nat)
    requires 0 < a <= b && p * a <= w < (p + 1) * a && q * b <= w < (q + 1) * b
    ensures q <= p
  {
    if q > p {
      MulMonotone(a, p + 1, q);
      MulMonotone(q, a, b);
    }
  }

  /** PrevTimestamps for a chain with the given timestamps: the last eleven, oldest first. */
  function Window(timestamps: seq<int>): (w: seq<int>)
    ensures |w| == WINDOW
  {
    if |timestamps| < WINDOW then timestamps + seq(WINDOW - |timestamps|, _ => ZERO_TIME)
    else timestamps[|timestamps| - WINDOW..]
  }

  /** applyHeader keeps the window in step with the chain. */
  lemma WindowSlides(s: State, h: BlockHeader, timestamps: seq<int>)
    requires s.prevTimestamps == Window(timestamps)
    requires if h.height == 0 then timestamps == [] else |timestamps| == s.index.height + 1
    ensures ApplyHeader(s, h).prevTimestamps == Window(timestamps + [h.timestamp])
  {
    if |timestamps| < WINDOW {
      assert Window(timestamps)[|timestamps| := h.timestamp] == Window(timestamps + [h.timestamp]);
    }
  }

  /** Half of the recent timestamps are no later than the median, and half no earlier. */
  lemma MedianSplits(times: seq<int>)
    requires |times| > 0
    ensures multiset(Sort(times, Before)) == multiset(times)
    ensures forall i :: 0 <= i <= (|times| - 1) / 2 ==> Sort(times, Before)[i] <= Median(times)
    ensures forall i :: |times| / 2 <= i < |times| ==> Median(times) <= Sort(times, Before)[i]
    ensures |times| % 2 == 1 ==> Median(times) == Sort(times, Before)[|times| / 2]
    ensures |times| % 2 == 0 ==>
      var l, r := Sort(times, Before)[|times| / 2 - 1], Sort(times, Before)[|times| / 2];
      r - l <= 0x7FFF_FFFF_FFFF_FFFF ==> Median(times) == (l + r) / 2
  {
    var ts := Sort(times, Before);
    Ascending(times);
    MedianBetween(times, ts);
    hide Sort, Median;
  }

  lemma Ascending(times: seq<int>)
    ensures forall i, j :: 0 <= i <= j < |times| ==> Sort(times, Before)[i] <= Sort(times, Before)[j]
  {
    var ts := Sort(times, Before);
    assert Ordering(Before);
    SortSorted(times, Before);
    hide Sort;
    forall i, j | 0 <= i <= j < |ts|
      ensures ts[i] <= ts[j]
    {
      assert i < j ==> !Before(ts[j], ts[i]);
    }
  }

  lemma MedianBetween(times: seq<int>, ts: seq<int>)
    requires |times| > 0 && ts == Sort(times, Before)
    requires forall i, j :: 0 <= i <= j < |ts| ==> ts[i] <= ts[j]
    ensures ts[(|times| - 1) / 2] <= Median(times) <= ts[|times| / 2]
    ensures |times| % 2 == 1 ==> Median(times) == ts[|times| / 2]
    ensures |times| % 2 == 0 && ts[|times| / 2] - ts[|times| / 2 - 1] <= 0x7FFF_FFFF_FFFF_FFFF ==>
      Median(times) == (ts[|times| / 2 - 1] + ts[|times| / 2]) / 2
  {
    hide Sort;
  }
}
