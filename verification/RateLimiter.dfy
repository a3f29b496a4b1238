/**
 The fixed-window request limiter: what its counters mean after any sequence of calls, and how
 many requests of one key it can admit in any stretch of time.
 */
module RateLimiter {
  import opened Basics

  type Key = (string, string, string)

  datatype Config = Config(requests: int, windowSeconds: int, maxKeys: int)

  predicate ValidConfig(c: Config) {
    c.requests >= 1 && c.windowSeconds >= 1 && c.maxKeys >= 1
  }

  datatype State = State(window: Option<int>, counts: map<Key, int>)

  function Empty(): State {
    State(None, map[])
  }

  function WindowOf(c: Config, time: real): int
    requires ValidConfig(c)
  {
    (time / (c.windowSeconds as real)).Floor
  }

  function Count(st: State, key: Key): int {
    if key in st.counts then st.counts[key] else 0
  }

  /** The state as a call in this window finds it. */
  function Entered(st: State, window: int): State {
    if st.window == Some(window) then st else State(Some(window), map[])
  }

  function Admits(c: Config, st: State, key: Key): bool {
    Count(st, key) < c.requests && (Count(st, key) != 0 || |st.counts| < c.maxKeys)
  }

  function Call(c: Config, before: State, key: Key, window: int): (State, bool) {
    var st := Entered(before, window);
    if Admits(c, st, key) then (st.(counts := st.counts[key := Count(st, key) + 1]), true) else (st, false)
  }

  class FixedWindowRateLimiter {
    const config: Config
    var window: Option<int>
    var counts: map<Key, int>

    function View(): State
      reads this
    {
      State(window, counts)
    }

    constructor (config: Config)
      requires ValidConfig(config)
      ensures this.config == config && View() == Empty()
    {
      this.config := config;
      window := None;
      counts := map[];
    }

    method Admit(key: Key, time: real) returns (admitted: bool)
      requires ValidConfig(config)
      modifies this
      ensures (View(), admitted) == Call(config, old(View()), key, WindowOf(config, time))
    {
      var current := WindowOf(config, time);
      if window != Some(current) {
        window := Some(current);
        counts := map[];
      }
      var count := if key in counts then counts[key] else 0;
      if count >= config.requests {
        return false;
      }
      if count == 0 && |counts| >= config.maxKeys {
        return false;
      }
      counts := counts[key := count + 1];
      return true;
    }
  }

  // ----- whole runs -----

  datatype Request = Request(key: Key, time: real)

  function After(c: Config, calls: seq<Request>): State
    requires ValidConfig(c)
  {
    if calls == [] then Empty()
    else
      var last := calls[|calls| - 1];
      Call(c, After(c, calls[..|calls| - 1]), last.key, WindowOf(c, last.time)).0
  }

  /** Whether the last call of the run is admitted. */
  predicate LastAdmitted(c: Config, calls: seq<Request>)
    requires ValidConfig(c) && calls != []
  {
    var last := calls[|calls| - 1];
    Call(c, After(c, calls[..|calls| - 1]), last.key, WindowOf(c, last.time)).1
  }

  function Bit(b: bool): int {
    if b then 1 else 0
  }

  /** The key's admitted calls since the window last changed. */
  function AdmittedSince(c: Config, calls: seq<Request>, key: Key): int
    requires ValidConfig(c)
  {
    if calls == [] then 0
    else
      var n := |calls| - 1;
      var now := Bit(LastAdmitted(c, calls) && calls[n].key == key);
      if n == 0 || WindowOf(c, calls[n - 1].time) != WindowOf(c, calls[n].time) then now
      else AdmittedSince(c, calls[..n], key) + now
  }

  lemma {:induction false} WindowOfLast(c: Config, calls: seq<Request>)
    requires ValidConfig(c)
    ensures After(c, calls).window == if calls == [] then None else Some(WindowOf(c, calls[|calls| - 1].time))
  {
  }

  /** What one call does to one counter and to the size of the table. */
  lemma CallEffect(c: Config, st: State, caller: Key, window: int, key: Key)
    requires ValidConfig(c) && |st.counts| <= c.maxKeys
    requires 0 <= Count(st, key) <= c.requests && (key in st.counts ==> st.counts[key] >= 1)
    requires 0 <= Count(st, caller) && (caller in st.counts ==> st.counts[caller] >= 1)
    ensures var (next, admitted) := Call(c, st, caller, window);
      && Count(next, key) == Count(Entered(st, window), key) + Bit(admitted && caller == key)
      && 0 <= Count(next, key) <= c.requests && (key in next.counts ==> next.counts[key] >= 1)
      && |next.counts| <= c.maxKeys
  {
    var entered := Entered(st, window);
    if caller in entered.counts {
      SameTable(entered.counts, caller, Count(entered, caller) + 1);
    }
  }

  /** Each counter is its key's admitted calls since the last window change, and the table is bounded. */
  lemma {:induction false} CountersAreAdmissions(c: Config, calls: seq<Request>, key: Key)
    requires ValidConfig(c)
    ensures var st := After(c, calls);
      && Count(st, key) == AdmittedSince(c, calls, key)
      && 0 <= AdmittedSince(c, calls, key) <= c.requests
      && (key in st.counts ==> st.counts[key] >= 1)
      && |st.counts| <= c.maxKeys
    decreases |calls|
  {
    hide Call;
    if calls != [] {
      var n := |calls| - 1;
      var rest := calls[..n];
      WindowOfLast(c, rest);
      CountersAreAdmissions(c, rest, key);
      CountersAreAdmissions(c, rest, calls[n].key);
      CallEffect(c, After(c, rest), calls[n].key, WindowOf(c, calls[n].time), key);
    }
  }

  lemma SameTable(counts: map<Key, int>, key: Key, value: int)
    requires key in counts
    ensures |counts[key := value]| == |counts|
  {
    assert counts[key := value].Keys == counts.Keys;
  }

  /** The keys that the next call, in this window, finds in the table. */
  function Tracked(c: Config, calls: seq<Request>, window: int): set<Key>
    requires ValidConfig(c)
  {
    Entered(After(c, calls), window).counts.Keys
  }

  /** The key's admitted calls in the window of the next call. */
  function Used(c: Config, calls: seq<Request>, key: Key, window: int): int
    requires ValidConfig(c)
  {
    if calls != [] && WindowOf(c, calls[|calls| - 1].time) == window then AdmittedSince(c, calls, key) else 0
  }

  /**
   A key with an admitted call in the window is decided by its own calls alone, however many
   other keys there are: it is admitted exactly while its quota lasts. Any other key is admitted
   exactly while the table has room.
   */
  lemma DecisionExactly(c: Config, calls: seq<Request>, next: Request)
    requires ValidConfig(c)
    ensures var window := WindowOf(c, next.time); var used := Used(c, calls, next.key, window);
      && (used > 0 <==> next.key in Tracked(c, calls, window))
      && (LastAdmitted(c, calls + [next]) <==>
            if used > 0 then used < c.requests else |Tracked(c, calls, window)| < c.maxKeys)
  {
    hide WindowOf, After, AdmittedSince;
    WindowOfLast(c, calls);
    CountersAreAdmissions(c, calls, next.key);
    assert (calls + [next])[..|calls|] == calls;
  }

  // ----- the rate bound -----

  ghost predicate NonDecreasing(calls: seq<Request>) {
    forall i, j :: 0 <= i <= j < |calls| ==> calls[i].time <= calls[j].time
  }

  /** The key's admitted calls in the windows from `low` to `high`. */
  function AdmittedInWindows(c: Config, calls: seq<Request>, key: Key, low: int, high: int): nat
    requires ValidConfig(c)
  {
    if calls == [] then 0
    else
      var last := calls[|calls| - 1];
      AdmittedInWindows(c, calls[..|calls| - 1], key, low, high)
      + if LastAdmitted(c, calls) && last.key == key && low <= WindowOf(c, last.time) <= high then 1 else 0
  }

  /** The key's admitted calls in the half-open interval of time. */
  function AdmittedBetween(c: Config, calls: seq<Request>, key: Key, from: real, to: real): nat
    requires ValidConfig(c)
  {
    if calls == [] then 0
    else
      var last := calls[|calls| - 1];
      AdmittedBetween(c, calls[..|calls| - 1], key, from, to)
      + if LastAdmitted(c, calls) && last.key == key && from <= last.time < to then 1 else 0
  }

  lemma FloorMonotone(x: real, y: real)
    requires x <= y
    ensures x.Floor <= y.Floor
  {
  }

  lemma WindowMonotone(c: Config, s: real, t: real)
    requires ValidConfig(c) && s <= t
    ensures WindowOf(c, s) <= WindowOf(c, t)
  {
    var w := c.windowSeconds as real;
    assert s / w <= t / w;
    FloorMonotone(s / w, t / w);
  }

  /** With a clock that never goes back, one window admits at most the quota. */
  lemma {:induction false} OneWindow(c: Config, calls: seq<Request>, key: Key, w: int)
    requires ValidConfig(c) && NonDecreasing(calls)
    ensures AdmittedInWindows(c, calls, key, w, w) <= c.requests
    ensures calls == [] ==> AdmittedInWindows(c, calls, key, w, w) == 0
    ensures calls != [] ==>
              var current := WindowOf(c, calls[|calls| - 1].time);
              && (w > current ==> AdmittedInWindows(c, calls, key, w, w) == 0)
              && (w == current ==> AdmittedInWindows(c, calls, key, w, w) == AdmittedSince(c, calls, key))
    decreases |calls|
  {
    if calls != [] {
      var n := |calls| - 1;
      var rest := calls[..n];
      OneWindow(c, rest, key, w);
      CountersAreAdmissions(c, calls, key);
      if n > 0 {
        WindowMonotone(c, calls[n - 1].time, calls[n].time);
      }
    }
  }

  lemma {:induction false} SplitWindows(c: Config, calls: seq<Request>, key: Key, low: int, high: int)
    requires ValidConfig(c) && low <= high
    ensures AdmittedInWindows(c, calls, key, low, high)
      == AdmittedInWindows(c, calls, key, low, high - 1) + AdmittedInWindows(c, calls, key, high, high)
    decreases |calls|
  {
    if calls != [] {
      SplitWindows(c, calls[..|calls| - 1], key, low, high);
    }
  }

  lemma {:induction false} NoWindows(c: Config, calls: seq<Request>, key: Key, low: int, high: int)
    requires ValidConfig(c) && low > high
    ensures AdmittedInWindows(c, calls, key, low, high) == 0
    decreases |calls|
  {
    if calls != [] {
      NoWindows(c, calls[..|calls| - 1], key, low, high);
    }
  }

  lemma {:induction false} ManyWindows(c: Config, calls: seq<Request>, key: Key, low: int, n: nat)
    requires ValidConfig(c) && NonDecreasing(calls)
    ensures AdmittedInWindows(c, calls, key, low, low + n - 1) <= c.requests * n
    decreases n
  {
    hide AdmittedInWindows;
    if n == 0 {
      NoWindows(c, calls, key, low, low - 1);
    } else {
      assert c.requests * n == c.requests * (n - 1) + c.requests;
      ManyWindows(c, calls, key, low, n - 1);
      SplitWindows(c, calls, key, low, low + n - 1);
      OneWindow(c, calls, key, low + n - 1);
    }
  }

  function Ceil(x: real): int {
    -((-x).Floor)
  }

  /** A time in an interval of this length lies in one of the windows from the first one on. */
  lemma WindowsOfInterval(c: Config, from: real, length: real, t: real)
    requires ValidConfig(c) && length >= 0.0 && from <= t < from + length
    ensures var low := WindowOf(c, from);
      low <= WindowOf(c, t) <= low + Ceil(length / (c.windowSeconds as real))
  {
    var w := c.windowSeconds as real;
    WindowMonotone(c, from, t);
    assert t / w < from / w + length / w by {
      assert (t - from) / w < length / w;
    }
  }

  lemma {:induction false} IntervalWithinWindows(c: Config, calls: seq<Request>, key: Key, from: real, length: real)
    requires ValidConfig(c) && length >= 0.0
    ensures var low := WindowOf(c, from);
      AdmittedBetween(c, calls, key, from, from + length)
      <= AdmittedInWindows(c, calls, key, low, low + Ceil(length / (c.windowSeconds as real)))
    decreases |calls|
  {
    if calls != [] {
      var n := |calls| - 1;
      IntervalWithinWindows(c, calls[..n], key, from, length);
      if from <= calls[n].time < from + length {
        WindowsOfInterval(c, from, length, calls[n].time);
      }
    }
  }

  lemma CeilNonNegative(x: real)
    requires x >= 0.0
    ensures Ceil(x) >= 0
  {
  }

  /**
   With a clock that never goes back, one key is admitted at most requests * (ceil(L/W) + 1)
   times in any half-open interval of L seconds.
   */
  lemma RateBound(c: Config, calls: seq<Request>, key: Key, from: real, length: real)
    requires ValidConfig(c) && NonDecreasing(calls) && length >= 0.0
    ensures AdmittedBetween(c, calls, key, from, from + length)
      <= c.requests * (Ceil(length / (c.windowSeconds as real)) + 1)
  {
    hide AdmittedBetween, AdmittedInWindows, Ceil;
    var n := Ceil(length / (c.windowSeconds as real));
    CeilNonNegative(length / (c.windowSeconds as real));
    IntervalWithinWindows(c, calls, key, from, length);
    ManyWindows(c, calls, key, WindowOf(c, from), n + 1);
  }

  // ----- windows are the stretches between multiples of their length -----

  /** The time is in the window that starts at this multiple of the window's length. */
  predicate InWindow(c: Config, k: int, time: real) {
    (k * c.windowSeconds) as real <= time < ((k + 1) * c.windowSeconds) as real
  }

  lemma WindowIsStretch(c: Config, k: int, time: real)
    requires ValidConfig(c)
    ensures WindowOf(c, time) == k <==> InWindow(c, k, time)
  {
    var q := time / (c.windowSeconds as real);
    FromMultiple(c.windowSeconds, k, time);
    FromMultiple(c.windowSeconds, k + 1, time);
    FloorExactly(q, k);
  }

  lemma FloorExactly(q: real, k: int)
    ensures q.Floor == k <==> k as real <= q && !((k + 1) as real <= q)
  {
  }

  /** As many lengths fit into the time exactly when that multiple has been reached. */
  lemma FromMultiple(w: int, k: int, time: real)
    requires w >= 1
    ensures k as real <= time / (w as real) <==> (k * w) as real <= time
  {
    ScaleOrder(k as real, time / (w as real), w as real);
    MultipleAsReal(k, w);
    DivideBack(time, w as real);
  }

  lemma DivideBack(x: real, w: real)
    requires w > 0.0
    ensures (x / w) * w == x
  {
  }

  lemma MultipleAsReal(k: int, w: int)
    ensures (k * w) as real == k as real * w as real
  {
  }

  lemma ScaleOrder(x: real, y: real, w: real)
    requires w > 0.0
    ensures x <= y <==> x * w <= y * w
  {
    Distribute(x, y, w);
    if x < y {
      Product(y - x, w);
    } else if y < x {
      Product(x - y, w);
    }
  }

  lemma Distribute(x: real, y: real, w: real)
    ensures (y - x) * w == y * w - x * w && (x - y) * w == x * w - y * w
  {
  }

  lemma Product(x: real, y: real)
    requires x > 0.0 && y > 0.0
    ensures x * y > 0.0
  {
  }

  lemma OrderOfMultiples(w: int, m: int, n: int)
    requires w >= 1
    ensures m <= n <==> m * w <= n * w
  {
    assert (n - m) * w == n * w - m * w;
    if m <= n {
      assert (n - m) * w >= 0;
    } else {
      assert (m - n) * w >= m - n;
    }
  }

  /** The keys with an admitted call in the half-open interval of time. */
  function KeysBetween(c: Config, calls: seq<Request>, from: real, to: real): set<Key>
    requires ValidConfig(c)
  {
    if calls == [] then {}
    else
      var last := calls[|calls| - 1];
      KeysBetween(c, calls[..|calls| - 1], from, to)
      + if LastAdmitted(c, calls) && from <= last.time < to then {last.key} else {}
  }

  lemma {:induction false} KeysAreAdmitted(c: Config, calls: seq<Request>, key: Key, from: real, to: real)
    requires ValidConfig(c)
    ensures key in KeysBetween(c, calls, from, to) <==> AdmittedBetween(c, calls, key, from, to) > 0
    decreases |calls|
  {
    hide LastAdmitted;
    if calls != [] {
      KeysAreAdmitted(c, calls[..|calls| - 1], key, from, to);
    }
  }

  lemma {:induction false} StretchIsWindow(c: Config, calls: seq<Request>, key: Key, k: int)
    requires ValidConfig(c)
    ensures AdmittedBetween(c, calls, key, (k * c.windowSeconds) as real, ((k + 1) * c.windowSeconds) as real)
      == AdmittedInWindows(c, calls, key, k, k)
    decreases |calls|
  {
    hide LastAdmitted, WindowOf;
    if calls != [] {
      StretchIsWindow(c, calls[..|calls| - 1], key, k);
      WindowIsStretch(c, k, calls[|calls| - 1].time);
    }
  }

  lemma UsedInStretch(c: Config, calls: seq<Request>, key: Key, k: int, time: real)
    requires ValidConfig(c) && NonDecreasing(calls) && InWindow(c, k, time)
    requires calls != [] ==> calls[|calls| - 1].time <= time
    ensures Used(c, calls, key, k)
      == AdmittedBetween(c, calls, key, (k * c.windowSeconds) as real, ((k + 1) * c.windowSeconds) as real)
  {
    hide LastAdmitted, WindowOf, AdmittedInWindows, AdmittedBetween, AdmittedSince, InWindow;
    StretchIsWindow(c, calls, key, k);
    OneWindow(c, calls, key, k);
    WindowIsStretch(c, k, time);
    if calls != [] {
      WindowMonotone(c, calls[|calls| - 1].time, time);
    }
  }

  /**
   The decision by time alone. With a clock that never goes back, what counts is what was admitted
   since the last multiple of the window's length: of the same key, while its quota lasts; for a key
   without an admitted call, of how many other keys.
   */
  lemma DecisionByTime(c: Config, calls: seq<Request>, next: Request, k: int)
    requires ValidConfig(c) && NonDecreasing(calls + [next]) && InWindow(c, k, next.time)
    ensures var from := (k * c.windowSeconds) as real; var to := ((k + 1) * c.windowSeconds) as real;
      var used := AdmittedBetween(c, calls, next.key, from, to);
      LastAdmitted(c, calls + [next])
      <==> if used > 0 then used < c.requests else |KeysBetween(c, calls, from, to)| < c.maxKeys
  {
    hide LastAdmitted, WindowOf, AdmittedBetween, KeysBetween, Tracked, Used, InWindow;
    var from := (k * c.windowSeconds) as real;
    var to := ((k + 1) * c.windowSeconds) as real;
    InOrderBefore(calls, next);
    WindowIsStretch(c, k, next.time);
    DecisionExactly(c, calls, next);
    UsedInStretch(c, calls, next.key, k, next.time);
    assert KeysBetween(c, calls, from, to) == Tracked(c, calls, k) by {
      forall key ensures key in KeysBetween(c, calls, from, to) <==> key in Tracked(c, calls, k) {
        DecisionExactly(c, calls, Request(key, next.time));
        UsedInStretch(c, calls, key, k, next.time);
        KeysAreAdmitted(c, calls, key, from, to);
      }
    }
  }

  lemma InOrderBefore(calls: seq<Request>, next: Request)
    requires NonDecreasing(calls + [next])
    ensures NonDecreasing(calls) && (calls != [] ==> calls[|calls| - 1].time <= next.time)
  {
    var all := calls + [next];
    assert forall i :: 0 <= i < |calls| ==> calls[i] == all[i];
    assert calls != [] ==> all[|calls| - 1].time <= all[|calls|].time;
  }

  lemma {:induction false} NothingLater(c: Config, calls: seq<Request>, from: real, to: real)
    requires ValidConfig(c) && forall i :: 0 <= i < |calls| ==> calls[i].time < from
    ensures KeysBetween(c, calls, from, to) == {}
    decreases |calls|
  {
    hide LastAdmitted;
    if calls != [] {
      NothingLater(c, calls[..|calls| - 1], from, to);
    }
  }

  /** Once a multiple of the window's length has been passed, any key is admitted. */
  lemma PassedMultipleAdmits(c: Config, calls: seq<Request>, next: Request, k: int)
    requires ValidConfig(c) && NonDecreasing(calls + [next])
    requires calls != [] ==> calls[|calls| - 1].time < (k * c.windowSeconds) as real <= next.time
    ensures LastAdmitted(c, calls + [next])
  {
    hide LastAdmitted, WindowOf, AdmittedBetween, KeysBetween, NonDecreasing;
    InOrderBefore(calls, next);
    var m := WindowOf(c, next.time);
    WindowIsStretch(c, m, next.time);
    var from := (m * c.windowSeconds) as real;
    var to := ((m + 1) * c.windowSeconds) as real;
    assert calls != [] ==> (k * c.windowSeconds) as real <= from by {
      OrderOfMultiples(c.windowSeconds, m + 1, k);
      OrderOfMultiples(c.windowSeconds, k, m);
    }
    AllBefore(calls, from);
    NothingLater(c, calls, from, to);
    KeysAreAdmitted(c, calls, next.key, from, to);
    DecisionByTime(c, calls, next, m);
  }

  lemma AllBefore(calls: seq<Request>, time: real)
    requires NonDecreasing(calls) && (calls != [] ==> calls[|calls| - 1].time < time)
    ensures forall i :: 0 <= i < |calls| ==> calls[i].time < time
  {
    assert forall i :: 0 <= i < |calls| ==> calls[i].time <= calls[|calls| - 1].time;
  }
}
