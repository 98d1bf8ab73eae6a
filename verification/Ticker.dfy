/** The pace of the poller: a ticker with a one-slot channel that drops ticks, and a loop that starts one
    FetchTweets per received tick. Times are in milliseconds. */
module Ticker {
  import opened Options

  const MAX_REQUESTS := 1500
  const WINDOW := 900000

  const PERIOD := 600

  /** Fifteen minutes divided by 1500 requests, without a rest. */
  lemma PeriodIsTheQuotient()
    ensures PERIOD == WINDOW / MAX_REQUESTS && WINDOW % MAX_REQUESTS == 0
  {
  }

  /** fired:   ticks so far; tick k fires at k * PERIOD
      waiting: the tick in the channel
      starts:  when each FetchTweets started, and
      ticks:   the tick it received */
  datatype Loop = Loop(now: int, fired: nat, waiting: Option<nat>, starts: seq<int>, ticks: seq<nat>)

  /** The next tick fires, or the loop receives the waiting one at the given time. */
  datatype Event = Fire | Receive(at: int)

  const START := Loop(0, 0, None, [], [])

  function TickTime(k: nat): int {
    PERIOD * k
  }

  predicate Enabled(l: Loop, e: Event) {
    e.Receive? ==> l.waiting.Some? && l.now <= e.at <= TickTime(l.fired + 1)
  }

  function Apply(l: Loop, e: Event): Loop
    requires Enabled(l, e)
  {
    match e
    case Fire =>
      var k := l.fired + 1;
      l.(now := TickTime(k), fired := k, waiting := if l.waiting.None? then Some(k) else l.waiting)
    case Receive(at) =>
      l.(now := at, waiting := None, starts := l.starts + [at], ticks := l.ticks + [l.waiting.value])
  }

  predicate Reaches(l: Loop, events: seq<Event>, end: Loop)
    decreases |events|
  {
    if events == [] then l == end
    else Enabled(l, events[0]) && Reaches(Apply(l, events[0]), events[1..], end)
  }

  /** A start comes no earlier than its own tick, and the tick of any later start fires no earlier than it. */
  predicate Paced(l: Loop) {
    && |l.starts| == |l.ticks|
    && TickTime(l.fired) <= l.now <= TickTime(l.fired + 1)
    && (forall i | 0 <= i < |l.starts| :: TickTime(l.ticks[i]) <= l.starts[i] <= l.now && l.ticks[i] <= l.fired)
    && (forall i, j | 0 <= i < j < |l.starts| :: l.starts[i] <= TickTime(l.ticks[j]))
    && (forall i, j | 0 <= i < j < |l.ticks| :: l.ticks[i] < l.ticks[j])
    && (l.waiting.Some? ==>
          && l.waiting.value <= l.fired
          && forall i | 0 <= i < |l.starts| :: l.starts[i] <= TickTime(l.waiting.value) && l.ticks[i] < l.waiting.value)
  }

  lemma ApplyKeepsPace(l: Loop, e: Event)
    requires Enabled(l, e) && Paced(l)
    ensures Paced(Apply(l, e))
  {
  }

  lemma {:induction false} RunKeepsPace(l: Loop, events: seq<Event>, end: Loop)
    requires Reaches(l, events, end) && Paced(l)
    ensures Paced(end)
    decreases |events|
  {
    if events != [] {
      ApplyKeepsPace(l, events[0]);
      RunKeepsPace(Apply(l, events[0]), events[1..], end);
    }
  }

  /** When the loop last received: before that, the start of the ticker. */
  function LastStart(l: Loop): int {
    if l.starts == [] then 0 else l.starts[|l.starts| - 1]
  }

  /** Each start receives the first tick since the start before it; the ticks behind that one, up to the start,
      are dropped. */
  predicate TakesFirstTicks(l: Loop) {
    && |l.starts| == |l.ticks|
    && (forall i | 0 <= i < |l.starts| ::
          l.ticks[i] > 0 && TickTime(l.ticks[i]) - PERIOD <= if i == 0 then 0 else l.starts[i - 1])
    && (l.waiting.Some? ==> l.waiting.value > 0 && TickTime(l.waiting.value) - PERIOD <= LastStart(l))
    && (l.waiting.None? ==> TickTime(l.fired) <= LastStart(l))
  }

  lemma FireTakesFirstTicks(l: Loop)
    requires TakesFirstTicks(l)
    ensures TakesFirstTicks(Apply(l, Fire))
  {
    if l.waiting.None? {
      assert TickTime(l.fired + 1) - PERIOD == TickTime(l.fired);
    }
  }

  /** A start at `at` receives the waiting tick. */
  lemma ReceiveTakesFirstTicks(l: Loop, at: int)
    requires l.waiting.Some? && TickTime(l.fired) <= at && TakesFirstTicks(l)
    ensures TakesFirstTicks(l.(now := at, waiting := None, starts := l.starts + [at],
                               ticks := l.ticks + [l.waiting.value]))
  {
  }

  lemma ApplyTakesFirstTicks(l: Loop, e: Event)
    requires Enabled(l, e) && Paced(l) && TakesFirstTicks(l)
    ensures TakesFirstTicks(Apply(l, e))
  {
    match e
    case Fire => FireTakesFirstTicks(l);
    case Receive(at) => ReceiveTakesFirstTicks(l, at);
  }

  lemma {:induction false} RunTakesFirstTicks(l: Loop, events: seq<Event>, end: Loop)
    requires Reaches(l, events, end) && Paced(l) && TakesFirstTicks(l)
    ensures Paced(end) && TakesFirstTicks(end)
    decreases |events|
  {
    if events != [] {
      ApplyKeepsPace(l, events[0]);
      ApplyTakesFirstTicks(l, events[0]);
      RunTakesFirstTicks(Apply(l, events[0]), events[1..], end);
    }
  }

  /** In every run each start receives the first tick that fires from the start before it on, and the first start
      the first tick of all. */
  lemma StartsTakeFirstTicks(events: seq<Event>, end: Loop, i: nat)
    requires Reaches(START, events, end) && i < |end.starts|
    ensures |end.ticks| == |end.starts| && TickTime(end.ticks[i]) <= end.starts[i]
    ensures if i == 0 then end.ticks[i] == 1
            else TickTime(end.ticks[i]) - PERIOD <= end.starts[i - 1] <= TickTime(end.ticks[i])
  {
    RunTakesFirstTicks(START, events, end);
  }

  lemma {:induction false} TicksSpread(ticks: seq<nat>, i: nat, j: nat)
    requires i <= j < |ticks| && forall h, k | 0 <= h < k < |ticks| :: ticks[h] < ticks[k]
    ensures ticks[i] + (j - i) <= ticks[j]
    decreases j - i
  {
    if i < j {
      TicksSpread(ticks, i, j - 1);
    }
  }

  /** Ticks that fire within one window are less than the limit apart. */
  lemma TicksWithin(k: nat, l: nat, from: int)
    requires k <= l && from <= TickTime(k) && TickTime(l) < from + WINDOW
    ensures l - k < MAX_REQUESTS
  {
    assert TickTime(l) - TickTime(k) == PERIOD * (l - k);
  }

  /** At most 1501 calls of FetchTweets start in any half-open window of fifteen minutes. */
  lemma AtMostOneMoreThanTheLimit(events: seq<Event>, end: Loop, from: int, i: nat, j: nat)
    requires Reaches(START, events, end) && i <= j < |end.starts|
    requires from <= end.starts[i] && end.starts[j] < from + WINDOW
    ensures j - i + 1 <= MAX_REQUESTS + 1
  {
    RunKeepsPace(START, events, end);
    if i < j {
      TicksSpread(end.ticks, i + 1, j);
      TicksWithin(end.ticks[i + 1], end.ticks[j], from);
    }
  }

  /** How long after its tick the start at j came, plus how long before the tick after its own the start at i
      came. */
  function Gaps(l: Loop, i: nat, j: nat): int
    requires Paced(l) && i + 1 < |l.starts| && j < |l.starts|
  {
    (l.starts[j] - TickTime(l.ticks[j])) + (TickTime(l.ticks[i + 1]) - l.starts[i])
  }

  /** The start at i opens a window with one start too many exactly when from the next start on no tick is
      dropped and the two gaps together stay under one period. */
  lemma OneTooManyExactly(events: seq<Event>, end: Loop, i: nat, j: nat)
    requires Reaches(START, events, end) && j == i + MAX_REQUESTS < |end.starts|
    ensures Paced(end)
    ensures end.starts[j] < end.starts[i] + WINDOW
            <==> end.ticks[j] == end.ticks[i + 1] + (j - i - 1) && Gaps(end, i, j) < PERIOD
  {
    RunKeepsPace(START, events, end);
    TicksSpread(end.ticks, i + 1, j);
  }

  /** A start that did not wait never opens such a window. */
  lemma OnTimeKeepsTheLimit(events: seq<Event>, end: Loop, i: nat, j: nat)
    requires Reaches(START, events, end) && j == i + MAX_REQUESTS < |end.starts|
    requires i < |end.ticks| && end.starts[i] == TickTime(end.ticks[i])
    ensures end.starts[j] >= end.starts[i] + WINDOW
  {
    RunKeepsPace(START, events, end);
    TicksSpread(end.ticks, i, j);
  }

  // ---------- the bound is met ----------

  /** The first tick waits for one millisecond, the others are received at once. */
  function LateThenOnTime(n: nat): seq<Event> {
    if n == 0 then [Fire, Receive(PERIOD + 1)]
    else LateThenOnTime(n - 1) + [Fire, Receive(TickTime(n + 1))]
  }

  function AfterLate(n: nat): (l: Loop)
    ensures l.fired == n + 1 && l.waiting == None && |l.starts| == n + 1
    ensures l.now == (if n == 0 then PERIOD + 1 else TickTime(n + 1))
    ensures l.starts[0] == PERIOD + 1 && l.starts[n] == l.now
  {
    if n == 0 then Loop(PERIOD + 1, 1, None, [PERIOD + 1], [1])
    else
      var l := AfterLate(n - 1);
      Loop(TickTime(n + 1), n + 1, None, l.starts + [TickTime(n + 1)], l.ticks + [n + 1])
  }

  lemma {:induction false} ReachesConcat(l: Loop, xs: seq<Event>, mid: Loop, ys: seq<Event>, end: Loop)
    requires Reaches(l, xs, mid) && Reaches(mid, ys, end)
    ensures Reaches(l, xs + ys, end)
    decreases |xs|
  {
    if xs == [] {
      assert xs + ys == ys;
    } else {
      assert (xs + ys)[1..] == xs[1..] + ys;
      ReachesConcat(Apply(l, xs[0]), xs[1..], mid, ys, end);
    }
  }

  lemma ReachesTwo(l: Loop, x: Event, y: Event)
    requires Enabled(l, x) && Enabled(Apply(l, x), y)
    ensures Reaches(l, [x, y], Apply(Apply(l, x), y))
  {
    assert [x, y][1..] == [y] && [y][1..] == [];
    assert Reaches(Apply(Apply(l, x), y), [], Apply(Apply(l, x), y));
    assert Reaches(Apply(l, x), [y], Apply(Apply(l, x), y));
  }

  lemma {:induction false} LateRun(n: nat)
    ensures Reaches(START, LateThenOnTime(n), AfterLate(n))
  {
    if n == 0 {
      ReachesTwo(START, Fire, Receive(PERIOD + 1));
    } else {
      LateRun(n - 1);
      ReachesTwo(AfterLate(n - 1), Fire, Receive(TickTime(n + 1)));
      ReachesConcat(START, LateThenOnTime(n - 1), AfterLate(n - 1), [Fire, Receive(TickTime(n + 1))], AfterLate(n));
    }
  }

  /** 1501 calls do start within some window of fifteen minutes: the limit of 1500 can be exceeded by one. */
  lemma TheLimitIsExceeded()
    ensures exists events: seq<Event>, end: Loop | Reaches(START, events, end) ::
              |end.starts| == MAX_REQUESTS + 1 && end.starts[MAX_REQUESTS] < end.starts[0] + WINDOW
  {
    LateRun(MAX_REQUESTS);
    var end := AfterLate(MAX_REQUESTS);
    assert end.starts[MAX_REQUESTS] == TickTime(MAX_REQUESTS + 1);
  }
}
