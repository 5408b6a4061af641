/** The registration limiter: a fixed window per caller, over whole runs of
    clock readings taken in the order the attempts enter the lock. */
module RateLimiter {
  import opened Wrappers

  const WINDOW_SECONDS: real := 300.0
  const MAX_ATTEMPTS: nat := 30

  datatype Window = Window(start: real, count: nat)

  type Table = map<string, Window>

  datatype Attempt = Attempt(now: real, caller: string)

  /** The window an attempt falls into: the caller's own, or a new one. */
  function Open(w: Option<Window>, now: real): Window {
    match w
    case None => Window(now, 0)
    case Some(w) => if now - w.start > WINDOW_SECONDS then Window(now, 0) else w
  }

  function Counted(w: Window): Window { w.(count := w.count + 1) }

  predicate Admits(w: Option<Window>, now: real) {
    Open(w, now).count + 1 <= MAX_ATTEMPTS
  }

  function Lookup(t: Table, caller: string): Option<Window> {
    if caller in t then Some(t[caller]) else None
  }

  function After(t: Table, a: Attempt): Table {
    t[a.caller := Counted(Open(Lookup(t, a.caller), a.now))]
  }

  class Limiter {
    var windows: Table

    constructor ()
      ensures windows == map[]
    {
      windows := map[];
    }

    /** Refused attempts are counted too. */
    method Record(caller: string, now: real) returns (admitted: bool)
      modifies this
      ensures windows == After(old(windows), Attempt(now, caller))
      ensures admitted <==> Admits(Lookup(old(windows), caller), now)
    {
      var start, count := now, 0;
      if caller in windows {
        start, count := windows[caller].start, windows[caller].count;
      }
      if now - start > WINDOW_SECONDS {
        start, count := now, 0;
      }
      count := count + 1;
      windows := windows[caller := Window(start, count)];
      admitted := count <= MAX_ATTEMPTS;
    }
  }

  // ---- Runs ----

  /** The table after a run from the empty table. */
  function Replay(run: seq<Attempt>): Table {
    if run == [] then map[] else After(Replay(run[..|run| - 1]), run[|run| - 1])
  }

  /** Was the i-th attempt of the run admitted? */
  predicate Admitted(run: seq<Attempt>, i: nat)
    requires i < |run|
  {
    Admits(Lookup(Replay(run[..i]), run[i].caller), run[i].now)
  }

  /** The readings of one caller's attempts. */
  function Readings(run: seq<Attempt>, caller: string): seq<real> {
    if run == [] then []
    else
      var earlier := Readings(run[..|run| - 1], caller);
      if run[|run| - 1].caller == caller then earlier + [run[|run| - 1].now] else earlier
  }

  /** The window a caller would have with nobody else around. */
  function Alone(ts: seq<real>): Option<Window> {
    if ts == [] then None else Some(Counted(Open(Alone(ts[..|ts| - 1]), ts[|ts| - 1])))
  }

  /** No caller's attempts touch another caller's window ... */
  lemma {:induction false} WindowsAreIndependent(run: seq<Attempt>, caller: string)
    ensures Lookup(Replay(run), caller) == Alone(Readings(run, caller))
  {
    if run != [] {
      var before := run[..|run| - 1];
      WindowsAreIndependent(before, caller);
      if run[|run| - 1].caller == caller {
        var ts := Readings(run, caller);
        assert ts[..|ts| - 1] == Readings(before, caller);
      }
    }
  }

  /** ... so each outcome is the one the caller would have had alone. */
  lemma OutcomesAreIndependent(run: seq<Attempt>, i: nat)
    requires i < |run|
    ensures Admitted(run, i) <==> Admits(Alone(Readings(run[..i], run[i].caller)), run[i].now)
  {
    WindowsAreIndependent(run[..i], run[i].caller);
  }

  // ---- One caller ----

  predicate AdmittedAlone(ts: seq<real>, i: nat)
    requires i < |ts|
  {
    Admits(Alone(ts[..i]), ts[i])
  }

  /** Admitted attempts with readings from `low` to `high`. */
  function SpanCount(ts: seq<real>, low: real, high: real): nat {
    if ts == [] then 0
    else
      var i := |ts| - 1;
      SpanCount(ts[..i], low, high) + if AdmittedAlone(ts, i) && low <= ts[i] <= high then 1 else 0
  }

  function Least(a: nat, b: nat): nat { if a <= b then a else b }

  /** Where the current window starts and what the readings so far allow. */
  lemma {:induction false} WindowSoFar(ts: seq<real>)
    requires ts != []
    ensures Alone(ts).Some? && Alone(ts).value.count > 0
    ensures exists i :: 0 <= i < |ts| && ts[i] == Alone(ts).value.start
    ensures forall i :: 0 <= i < |ts| ==> ts[i] <= Alone(ts).value.start + WINDOW_SECONDS
  {
    var before, last := ts[..|ts| - 1], |ts| - 1;
    if before == [] || ts[last] - Alone(before).value.start > WINDOW_SECONDS {
      assert ts[last] == Alone(ts).value.start;
    }
    if before != [] {
      WindowSoFar(before);
      var i :| 0 <= i < |before| && before[i] == Alone(before).value.start;
      assert ts[i] == before[i];
    }
  }

  /** A window that starts before the span adds all but its opening attempt; one
      that starts inside adds up to 30; each later one adds all but its opening
      attempt again. This holds for every clock. */
  predicate SpanFill(ts: seq<real>, low: real, late: nat)
    requires ts != []
  {
    var w, n := Alone(ts).value, SpanCount(ts, low, low + WINDOW_SECONDS);
    && (w.start + WINDOW_SECONDS < low ==> n == 0)
    && (w.start < low ==> n < Least(w.count, MAX_ATTEMPTS))
    && (w.start <= low + WINDOW_SECONDS + WINDOW_SECONDS * late as real ==>
          n < MAX_ATTEMPTS + Least(w.count, MAX_ATTEMPTS) + (MAX_ATTEMPTS - 1) * late)
  }

  lemma {:induction false} SpanFills(ts: seq<real>, low: real, late: nat)
    requires ts != []
    ensures SpanFill(ts, low, late)
    decreases |ts|
  {
    var before := ts[..|ts| - 1];
    WindowSoFar(ts);
    if before != [] {
      WindowSoFar(before);
      SpanFills(before, low, late);
      if late > 0 { SpanFills(before, low, late - 1); }
    }
  }

  /** No reading is more than `delta` behind an earlier one. */
  predicate Within(ts: seq<real>, delta: real) {
    forall i, j :: 0 <= i < j < |ts| ==> ts[i] - ts[j] <= delta
  }

  /** Once a window starts later than the disorder allows, the span is closed. */
  lemma {:induction false} SpanCloses(ts: seq<real>, low: real, delta: real, late: nat)
    requires Within(ts, delta) && delta <= WINDOW_SECONDS * late as real
    ensures SpanCount(ts, low, low + WINDOW_SECONDS) <= SpanLimit(late)
    decreases |ts|
  {
    if ts != [] {
      var before := ts[..|ts| - 1];
      SpanCloses(before, low, delta, late);
      SpanFills(ts, low, late);
      WindowSoFar(ts);
      var i :| 0 <= i < |ts| && ts[i] == Alone(ts).value.start;
      assert ts[i] - ts[|ts| - 1] <= delta || i == |ts| - 1;
    }
  }

  /** The bound for readings out of order by up to `late` windows. */
  function SpanLimit(late: nat): nat { 2 * MAX_ATTEMPTS - 1 + (MAX_ATTEMPTS - 1) * late }

  /** Does the i-th attempt open a new window? */
  predicate Resets(ts: seq<real>, i: nat)
    requires i < |ts|
  {
    Alone(ts[..i]).None? || ts[i] - Alone(ts[..i]).value.start > WINDOW_SECONDS
  }

  /** Admitted attempts among those from the i-th on. */
  function CountFrom(ts: seq<real>, i: nat): nat {
    if |ts| <= i then 0 else CountFrom(ts[..|ts| - 1], i) + if AdmittedAlone(ts, |ts| - 1) then 1 else 0
  }

  /** From one reset to the next, whatever the clock does, 30 at most. */
  lemma {:induction false} WindowNeverOverfills(ts: seq<real>, i: nat)
    requires i < |ts| && forall k :: i < k < |ts| ==> !Resets(ts, k)
    ensures CountFrom(ts, i) <= Least(Alone(ts).value.count, MAX_ATTEMPTS)
    decreases |ts|
  {
    var before := ts[..|ts| - 1];
    if i < |before| {
      forall k | i < k < |before| ensures !Resets(before, k) {
        assert !Resets(ts, k) && before[..k] == ts[..k];
      }
      WindowNeverOverfills(before, i);
      assert !Resets(ts, |ts| - 1);
    }
  }

  // ---- Windows on the readings alone ----

  /** The last opening up to attempt `i`: the first attempt opens, and so does the
      first one read more than a window length after the opening before it. */
  function LastOpening(ts: seq<real>, i: nat): (k: nat)
    requires i < |ts|
    ensures k <= i
  {
    if i == 0 then 0
    else
      var k := LastOpening(ts, i - 1);
      if ts[i] > ts[k] + WINDOW_SECONDS then i else k
  }

  /** The window after attempt `i`: it starts at the last opening and counts every
      attempt since, refused ones included. */
  lemma {:induction false} WindowIsItsOpening(ts: seq<real>, i: nat)
    requires i < |ts|
    ensures var k := LastOpening(ts, i); Alone(ts[..i + 1]) == Some(Window(ts[k], i - k + 1))
  {
    assert ts[..i + 1][..i] == ts[..i] && ts[..i + 1][i] == ts[i];
    if i > 0 { WindowIsItsOpening(ts, i - 1); }
  }

  /** An attempt is refused exactly when at least 30 attempts lie between it and the
      last opening. */
  lemma RefusedExactly(ts: seq<real>, i: nat)
    requires i < |ts|
    ensures !AdmittedAlone(ts, i) <==> i - LastOpening(ts, i) >= 30
  {
    WindowIsItsOpening(ts, i);
    if i > 0 { WindowIsItsOpening(ts, i - 1); }
  }

  /** The same in a whole run, over the caller's own attempts. */
  lemma RefusedInRunExactly(run: seq<Attempt>, i: nat)
    requires i < |run|
    ensures var ts := Readings(run[..i + 1], run[i].caller);
            && ts != [] && ts[|ts| - 1] == run[i].now
            && (!Admitted(run, i) <==> |ts| - 1 - LastOpening(ts, |ts| - 1) >= 30)
  {
    var caller := run[i].caller;
    var before, ts := Readings(run[..i], caller), Readings(run[..i + 1], caller);
    assert run[..i + 1][..i] == run[..i] && ts == before + [run[i].now];
    OutcomesAreIndependent(run, i);
    assert ts[..|ts| - 1] == before;
    RefusedExactly(ts, |ts| - 1);
  }

  /** So whoever waits more than 300 seconds after all earlier readings is admitted,
      however often it was refused. */
  lemma WaitingIsEnough(ts: seq<real>, i: nat)
    requires i < |ts| && forall j :: 0 <= j < i ==> ts[i] > ts[j] + 300.0
    ensures AdmittedAlone(ts, i)
  {
    RefusedExactly(ts, i);
  }

  // ---- All callers ----

  /** Admitted attempts of one caller in a span, over the whole run. */
  function AdmittedInSpan(run: seq<Attempt>, caller: string, low: real, high: real): nat {
    if run == [] then 0
    else
      var i := |run| - 1;
      AdmittedInSpan(run[..i], caller, low, high)
      + if run[i].caller == caller && Admitted(run, i) && low <= run[i].now <= high then 1 else 0
  }

  lemma {:induction false} SpanSeesOnlyTheCaller(run: seq<Attempt>, caller: string, low: real, high: real)
    ensures AdmittedInSpan(run, caller, low, high) == SpanCount(Readings(run, caller), low, high)
  {
    if run != [] {
      var i := |run| - 1;
      SpanSeesOnlyTheCaller(run[..i], caller, low, high);
      if run[i].caller == caller {
        OutcomesAreIndependent(run, i);
        var ts := Readings(run, caller);
        assert ts[..|ts| - 1] == Readings(run[..i], caller);
      }
    }
  }

  /** At most 59 admitted attempts per caller in any 300-second span while that
      caller's readings come in order, and at most 29 more for every 300 seconds
      by which a reading may lie behind an earlier one. */
  lemma SpanBound(run: seq<Attempt>, caller: string, low: real, delta: real, late: nat)
    requires Within(Readings(run, caller), delta) && delta <= WINDOW_SECONDS * late as real
    ensures AdmittedInSpan(run, caller, low, low + WINDOW_SECONDS) <= SpanLimit(late)
  {
    SpanSeesOnlyTheCaller(run, caller, low, low + WINDOW_SECONDS);
    SpanCloses(Readings(run, caller), low, delta, late);
  }

  // ---- The bounds are reached ----

  function Burst(now: real, n: nat): seq<real> { seq(n, _ => now) }

  /** A burst inside the current window is admitted up to the limit. */
  lemma {:induction false} BurstFills(ts: seq<real>, now: real, n: nat, low: real, high: real)
    requires Alone(ts).Some? && now - Alone(ts).value.start <= WINDOW_SECONDS && low <= now <= high
    requires Alone(ts).value.count + n <= MAX_ATTEMPTS
    ensures Alone(ts + Burst(now, n)) == Some(Window(Alone(ts).value.start, Alone(ts).value.count + n))
    ensures SpanCount(ts + Burst(now, n), low, high) == SpanCount(ts, low, high) + n
  {
    var whole := ts + Burst(now, n);
    if n == 0 {
      assert whole == ts;
    } else {
      BurstFills(ts, now, n - 1, low, high);
      assert whole[..|whole| - 1] == ts + Burst(now, n - 1);
    }
  }

  /** One more attempt, late enough to open a new window. */
  lemma LateReadingResets(ts: seq<real>, now: real, low: real, high: real)
    requires Alone(ts).Some? && now - Alone(ts).value.start > WINDOW_SECONDS
    ensures Alone(ts + [now]) == Some(Window(now, 1))
    ensures SpanCount(ts + [now], low, high) == SpanCount(ts, low, high) + if low <= now <= high then 1 else 0
  {
    assert (ts + [now])[..|ts|] == ts;
  }

  lemma {:induction false} WithinNext(ts: seq<real>, now: real, n: nat, delta: real)
    requires Within(ts, delta) && delta >= 0.0 && forall i :: 0 <= i < |ts| ==> ts[i] - now <= delta
    ensures Within(ts + Burst(now, n), delta)
  {
  }

  /** The state of the construction below after some windows: the last opened at
      `start`, nothing later, the span from 300 to 600 filled to `n`. */
  ghost predicate Built(ts: seq<real>, start: real, n: nat, delta: real) {
    && Alone(ts) == Some(Window(start, MAX_ATTEMPTS)) && Within(ts, delta)
    && (forall i :: 0 <= i < |ts| ==> ts[i] <= start)
    && SpanCount(ts, 300.0, 600.0) == n
  }

  /** A window that opens before the span and is filled at its beginning. */
  lemma FirstWindow(delta: real) returns (ts: seq<real>)
    requires delta >= 0.0
    ensures Alone(ts) == Some(Window(0.0, MAX_ATTEMPTS)) && Within(ts, delta)
    ensures (forall i :: 0 <= i < |ts| ==> ts[i] <= 300.0) && SpanCount(ts, 300.0, 600.0) == MAX_ATTEMPTS - 1
  {
    var first := [0.0];
    assert first[..0] == [] && SpanCount(first, 300.0, 600.0) == 0;
    ts := first + Burst(300.0, 29);
    BurstFills(first, 300.0, 29, 300.0, 600.0);
    WithinNext(first, 300.0, 29, delta);
  }

  /** Two windows share the span, and the first opened before it. */
  lemma TwoWindows(e: real, delta: real) returns (ts: seq<real>)
    requires 0.0 < e <= 1.0 && delta >= 0.0
    ensures Built(ts, 300.0 + e, 2 * MAX_ATTEMPTS - 1, delta)
  {
    var one := FirstWindow(delta);
    var now := 300.0 + e;
    var begun := one + [now];
    LateReadingResets(one, now, 300.0, 600.0);
    WithinNext(one, now, 1, delta);
    assert Burst(now, 1) == [now];
    ts := begun + Burst(now, 29);
    BurstFills(begun, now, 29, 300.0, 600.0);
    WithinNext(begun, now, 29, delta);
  }

  /** One more window opens after the span and is filled by readings at 600. */
  lemma LateWindow(ts: seq<real>, start: real, n: nat, e: real, delta: real) returns (more: seq<real>)
    requires Built(ts, start, n, delta) && start >= 300.0 && 0.0 < e && start + 300.0 + e - 600.0 <= delta
    ensures Built(more, start + 300.0 + e, n + MAX_ATTEMPTS - 1, delta)
  {
    var now := start + 300.0 + e;
    var begun := ts + [now];
    LateReadingResets(ts, now, 300.0, 600.0);
    WithinNext(ts, now, 1, delta);
    assert Burst(now, 1) == [now];
    more := begun + Burst(600.0, 29);
    BurstFills(begun, 600.0, 29, 300.0, 600.0);
    WithinNext(begun, 600.0, 29, delta);
  }

  /** Where the last of the windows starts, each `e` later than it must. */
  function StartOf(e: real, late: nat): real {
    if late == 0 then 300.0 + e else StartOf(e, late - 1) + 300.0 + e
  }

  lemma {:induction false} StartOfIs(e: real, late: nat)
    ensures StartOf(e, late) == 300.0 * (late + 1) as real + e * (late + 1) as real
  {
    if late > 0 {
      StartOfIs(e, late - 1);
      assert e * (late + 1) as real == e * late as real + e;
    }
  }

  lemma {:induction false} LateWindows(late: nat, e: real, delta: real) returns (ts: seq<real>)
    requires 0.0 < e <= 1.0 && delta >= 0.0 && (late > 0 ==> StartOf(e, late) - 600.0 <= delta)
    ensures Built(ts, StartOf(e, late), SpanLimit(late), delta) && StartOf(e, late) >= 300.0
  {
    if late == 0 {
      ts := TwoWindows(e, delta);
    } else {
      var before := LateWindows(late - 1, e, delta);
      ts := LateWindow(before, StartOf(e, late - 1), SpanLimit(late - 1), e, delta);
    }
  }

  // ---- Disorder decides the bound ----

  function RunOf(ts: seq<real>, caller: string): seq<Attempt> {
    seq(|ts|, i requires 0 <= i < |ts| => Attempt(ts[i], caller))
  }

  lemma {:induction false} ReadingsOfRun(ts: seq<real>, caller: string)
    ensures Readings(RunOf(ts, caller), caller) == ts
  {
    if ts != [] {
      var run := RunOf(ts, caller);
      assert run[..|run| - 1] == RunOf(ts[..|ts| - 1], caller);
      ReadingsOfRun(ts[..|ts| - 1], caller);
    }
  }

  /** Admitted attempts of one caller in the span that begins at `low`. */
  function InSpan(run: seq<Attempt>, caller: string, low: real): nat {
    AdmittedInSpan(run, caller, low, low + WINDOW_SECONDS)
  }

  /** Every run whose readings lag by at most `delta` stays within the bound. */
  ghost predicate BoundHolds(bound: nat, delta: real) {
    forall run, caller, low :: Within(Readings(run, caller), delta) ==> InSpan(run, caller, low) <= bound
  }

  /** A run with lag at most `delta` reaches the bound of `late` windows as soon
      as `delta` exceeds the lag of one window fewer. */
  lemma SpanLimitIsReached(delta: real, late: nat)
    requires delta >= 0.0 && (late > 0 ==> delta > WINDOW_SECONDS * (late - 1) as real)
    ensures exists run, caller ::
              Within(Readings(run, caller), delta) && InSpan(run, caller, 300.0) == SpanLimit(late)
  {
    var spare := if late == 0 then 1.0 else delta - 300.0 * (late - 1) as real;
    var share := spare / (late + 1) as real;
    var e := if share <= 1.0 then share else 1.0;
    assert share * (late + 1) as real == spare;
    assert e * (late + 1) as real <= spare;
    StartOfIs(e, late);
    var ts := LateWindows(late, e, delta);
    ReadingsOfRun(ts, "caller");
    SpanSeesOnlyTheCaller(RunOf(ts, "caller"), "caller", 300.0, 600.0);
  }

  /** For every number of windows: the bound 59 + 29 * late holds for all runs of
      lag at most `delta` exactly when `delta` is at most `late` windows. With
      late = 0, the limit of 59 holds exactly for readings in order: any positive
      lag, however small, lets a run reach 88. */
  lemma DisorderDecidesTheBound(delta: real, late: nat)
    ensures BoundHolds(SpanLimit(late), delta) <==> delta <= WINDOW_SECONDS * late as real
  {
    if delta <= WINDOW_SECONDS * late as real {
      forall run, caller, low | Within(Readings(run, caller), delta)
        ensures InSpan(run, caller, low) <= SpanLimit(late)
      {
        SpanBound(run, caller, low, delta, late);
      }
    } else {
      SpanLimitIsReached(delta, late + 1);
      var run, caller :| Within(Readings(run, caller), delta) && InSpan(run, caller, 300.0) == SpanLimit(late + 1);
      assert InSpan(run, caller, 300.0) > SpanLimit(late);
    }
  }
}
