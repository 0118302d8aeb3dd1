/**
 * The scoring engine: a pure function of the log and the current time that
 * derives presence, the consecutive-day pass streak, continuity,
 * accountability and the 0..100 total. `ScoreOf` is the definition;
 * `ComputeScore` computes it the way the component does, collecting the
 * pass days into a set entry by entry and counting the streak in a loop.
 */
module Scoring {
  import opened Wrappers
  import opened EventLog

  /** Milliseconds in a day (`24 * 3600 * 1000`). */
  const DayMs: nat := 24 * 3600 * 1000

  /** `Math.floor(ts / DayMs)`: the UTC day that holds the instant `ts`. */
  function DayIndex(ts: int): (d: int)
    ensures d * DayMs <= ts < (d + 1) * DayMs
  {
    ts / DayMs
  }

  /** The derived score. `continuity` and `accountability` are exact
      rationals standing for the component's floating-point numbers. */
  datatype Score = Score(total: int, presence: int, continuity: real, accountability: real, streak: nat)

  /** `logs.filter(l => l.pass)`: the passing entries, in log order. */
  function Passes(logs: seq<LogEntry>): (r: seq<LogEntry>)
    ensures |r| <= |logs|
    ensures forall k :: 0 <= k < |r| ==> r[k].pass && r[k] in logs
    ensures forall i :: 0 <= i < |logs| && logs[i].pass ==> logs[i] in r
  {
    if logs == [] then []
    else
      var init := logs[..|logs| - 1];
      var last := logs[|logs| - 1];
      assert forall e :: e in init ==> e in logs;
      Passes(init) + (if last.pass then [last] else [])
  }

  /** The filter works entry by entry and keeps log order: filtering a
      concatenation filters each part and concatenates the results. */
  lemma {:induction false} PassesConcat(a: seq<LogEntry>, b: seq<LogEntry>)
    ensures Passes(a + b) == Passes(a) + Passes(b)
    decreases |b|
  {
    if b == [] {
      assert a + b == a;
    } else {
      var b0 := b[..|b| - 1];
      assert (a + b)[..|a + b| - 1] == a + b0;
      assert (a + b)[|a + b| - 1] == b[|b| - 1];
      PassesConcat(a, b0);
    }
  }

  /** The filter keeps every passing entry as often as the log holds it, and
      nothing else. */
  lemma {:induction false} PassesMultiset(logs: seq<LogEntry>, e: LogEntry)
    ensures multiset(Passes(logs))[e] == if e.pass then multiset(logs)[e] else 0
  {
    if logs != [] {
      var init := logs[..|logs| - 1];
      var last := logs[|logs| - 1];
      assert logs == init + [last];
      PassesMultiset(init, e);
    }
  }

  /** A single entry is kept exactly when it passes. */
  lemma PassesSingle(e: LogEntry)
    ensures Passes([e]) == if e.pass then [e] else []
  {
    assert [e][..0] == [];
  }

  /** The filter keeps exactly the entries the pass count counts. */
  lemma {:induction false} PassesLength(logs: seq<LogEntry>)
    ensures |Passes(logs)| == PassCount(logs)
  {
    if logs != [] {
      PassesLength(logs[..|logs| - 1]);
    }
  }

  /** The timestamp of the most recent passing entry (the head of the passes
      sorted by decreasing `ts`), or `None` when nothing passed. */
  function LatestTs(passes: seq<LogEntry>): (r: Option<int>)
    ensures r.None? <==> passes == []
    ensures r.Some? ==> exists k :: 0 <= k < |passes| && passes[k].ts == r.value
    ensures r.Some? ==> forall k :: 0 <= k < |passes| ==> passes[k].ts <= r.value
  {
    if passes == [] then None
    else
      var t := passes[|passes| - 1].ts;
      match LatestTs(passes[..|passes| - 1])
      case None => Some(t)
      case Some(u) => Some(if u < t then t else u)
  }

  /** 1 when the latest pass is at most a day old at `now`, else 0. */
  function Presence(passes: seq<LogEntry>, now: int): int {
    match LatestTs(passes)
    case None => 0
    case Some(t) => if now - t <= DayMs then 1 else 0
  }

  /** Presence is 1 exactly when some passing entry is at most 24 hours old
      (the bound is inclusive); otherwise, and on a log with no pass, it is 0. */
  lemma PresenceIff(logs: seq<LogEntry>, now: int)
    ensures Presence(Passes(logs), now) == 0 || Presence(Passes(logs), now) == 1
    ensures Presence(Passes(logs), now) == 1 <==>
      exists i :: 0 <= i < |logs| && logs[i].pass && now - logs[i].ts <= DayMs
  {
  }

  /** The days (`DayIndex`) on which the given entries were logged. */
  function DaySet(entries: seq<LogEntry>): set<int> {
    set e | e in entries :: DayIndex(e.ts)
  }

  /** The days with at least one passing entry. */
  function PassDays(logs: seq<LogEntry>): set<int> {
    DaySet(Passes(logs))
  }

  /** Some passing entry of the log was logged on day `d`. */
  predicate PassedOn(logs: seq<LogEntry>, d: int) {
    exists i :: 0 <= i < |logs| && logs[i].pass && DayIndex(logs[i].ts) == d
  }

  lemma PassDaysMembers(logs: seq<LogEntry>, d: int)
    ensures d in PassDays(logs) <==> PassedOn(logs, d)
  {
  }

  /** The number of consecutive days `today`, `today - 1`, ... that are all in `days`. */
  function StreakLength(days: set<int>, today: int): nat
    decreases days
  {
    if today in days then 1 + StreakLength(days - {today}, today - 1) else 0
  }

  /** The streak is the longest run of days ending today that are all in
      the set: every day of the run is in it, the day before the run is not,
      and the run is no longer than the number of distinct days. */
  lemma {:induction false} StreakIsLongestRun(days: set<int>, today: int)
    ensures forall d :: today - StreakLength(days, today) < d <= today ==> d in days
    ensures today - StreakLength(days, today) !in days
    ensures StreakLength(days, today) <= |days|
    ensures today !in days ==> StreakLength(days, today) == 0
    decreases days
  {
    if today in days {
      var rest := days - {today};
      StreakIsLongestRun(rest, today - 1);
      var k := StreakLength(days, today);
      assert k == 1 + StreakLength(rest, today - 1);
      forall d | today - k < d <= today ensures d in days {
        if d < today {
          assert d in rest;
        }
      }
    }
  }

  /** The streak of an example history: passes on days D, D-1 and D-2 but
      not on D-3 give a three-day streak. */
  lemma ThreeDayStreak(days: set<int>, d: int)
    requires d in days && d - 1 in days && d - 2 in days && d - 3 !in days
    ensures StreakLength(days, d) == 3
    ensures Continuity(StreakLength(days, d)) == 0.6
  {
    StreakIsLongestRun(days, d);
  }

  /** `Math.min(streak / 5, 1)`: a streak of five days or more saturates. */
  function Continuity(streak: nat): real {
    if (streak as real) / 5.0 < 1.0 then (streak as real) / 5.0 else 1.0
  }

  /** `passes.length / logs.length`. */
  function Accountability(passCount: nat, entries: nat): real
    requires entries > 0
  {
    (passCount as real) / (entries as real)
  }

  lemma ContinuityRange(streak: nat)
    ensures 0.0 <= Continuity(streak) <= 1.0
  {
  }

  lemma AccountabilityRange(passCount: nat, entries: nat)
    requires 0 < entries && passCount <= entries
    ensures 0.0 <= Accountability(passCount, entries) <= 1.0
  {
  }

  /** `Math.round(presence * 40 + continuity * 40 + accountability * 20)`;
      `Math.round` rounds halves up, so it is `floor(x + 1/2)`. */
  function Total(presence: int, continuity: real, accountability: real): int {
    ((presence as real) * 40.0 + continuity * 40.0 + accountability * 20.0 + 0.5).Floor
  }

  /** The score of a log at time `now`. */
  function ScoreOf(logs: seq<LogEntry>, now: int): (s: Score)
    ensures logs == [] ==> s == Score(0, 0, 0.0, 0.0, 0)
    ensures 0 <= s.total <= 100
    ensures s.presence == 0 || s.presence == 1
    ensures 0.0 <= s.continuity <= 1.0 && 0.0 <= s.accountability <= 1.0
  {
    if logs == [] then Score(0, 0, 0.0, 0.0, 0)
    else
      var passes := Passes(logs);
      var presence := Presence(passes, now);
      var streak := StreakLength(DaySet(passes), DayIndex(now));
      var continuity := Continuity(streak);
      var accountability := Accountability(|passes|, |logs|);
      ContinuityRange(streak);
      AccountabilityRange(|passes|, |logs|);
      TotalRange(presence, continuity, accountability);
      Score(Total(presence, continuity, accountability), presence, continuity, accountability, streak)
  }

  lemma TotalRange(presence: int, continuity: real, accountability: real)
    requires 0 <= presence <= 1 && 0.0 <= continuity <= 1.0 && 0.0 <= accountability <= 1.0
    ensures 0 <= Total(presence, continuity, accountability) <= 100
  {
  }

  /** `floor(a / b)` over the rationals is integer division. */
  lemma FloorOfQuotient(a: int, b: int)
    requires a >= 0 && b > 0
    ensures ((a as real) / (b as real)).Floor == a / b
  {
    var q, r := a / b, a % b;
    var x := (a as real) / (b as real);
    assert a as real == (q as real) * (b as real) + r as real;
    assert x == q as real + (r as real) / (b as real);
    assert 0.0 <= (r as real) / (b as real) < 1.0;
  }

  /** `min(streak, 5)`: the days of a streak that count towards continuity. */
  function Min5(streak: nat): nat {
    if streak < 5 then streak else 5
  }

  lemma ScaledContinuity(streak: nat)
    ensures Continuity(streak) * 40.0 == (8 * Min5(streak)) as real
  {
  }

  lemma ScaledAccountability(passCount: nat, n: nat)
    requires 0 < n
    ensures Accountability(passCount, n) * 20.0 * ((2 * n) as real) == (40 * passCount) as real
  {
  }

  lemma CastProduct(u: int, v: int)
    ensures (u * v) as real == (u as real) * (v as real)
  {
  }

  lemma QuotientUnique(x: real, a: real, d: real)
    requires d != 0.0 && x * d == a
    ensures x == a / d
  {
  }

  /** The total without fractions: `round(40 presence + 8 min(streak, 5) +
      20 passCount / n)` as `(2n(40 presence + 8 min(streak, 5)) + 40 passCount + n) div 2n`. */
  function IntegerTotal(presence: int, streak: nat, passCount: nat, n: nat): int
    requires 0 < n
  {
    (2 * n * (40 * presence + 8 * Min5(streak)) + 40 * passCount + n) / (2 * n)
  }

  /** The rounded weighted sum over the rationals equals its all-integer form. */
  lemma TotalIntegerForm(presence: int, streak: nat, passCount: nat, n: nat)
    requires 0 <= presence <= 1 && 0 < n && passCount <= n
    ensures Total(presence, Continuity(streak), Accountability(passCount, n)) ==
      IntegerTotal(presence, streak, passCount, n)
  {
    var m := Min5(streak);
    var acc := Accountability(passCount, n);
    var a := 2 * n * (40 * presence + 8 * m) + 40 * passCount + n;
    var big := (2 * n) as real;
    var p := (40 * presence + 8 * m) as real;
    var y := acc * 20.0;
    ScaledContinuity(streak);
    ScaledAccountability(passCount, n);
    CastProduct(2 * n, 40 * presence + 8 * m);
    var x := p + y + 0.5;
    assert x == (presence as real) * 40.0 + Continuity(streak) * 40.0 + acc * 20.0 + 0.5;
    assert x * big == p * big + y * big + 0.5 * big;
    assert x * big == a as real;
    QuotientUnique(x, a as real, big);
    FloorOfQuotient(a, 2 * n);
  }

  /** The `forEach` that adds each pass's day to a `Set`. */
  method CollectDays(passes: seq<LogEntry>) returns (days: set<int>)
    ensures days == DaySet(passes)
  {
    days := {};
    for k := 0 to |passes|
      invariant days == DaySet(passes[..k])
    {
      assert passes[..k + 1] == passes[..k] + [passes[k]];
      days := days + {DayIndex(passes[k].ts)};
    }
    assert passes[..|passes|] == passes;
  }

  /** `for (let d = today; days.has(d); d -= 1) streak += 1;` */
  method CountStreak(days: set<int>, today: int) returns (streak: nat)
    ensures streak == StreakLength(days, today)
  {
    streak := 0;
    var d := today;
    ghost var rest := days;
    while d in days
      invariant d == today - streak
      invariant rest <= days
      invariant forall x :: x <= d ==> (x in rest <==> x in days)
      invariant streak + StreakLength(rest, d) == StreakLength(days, today)
      decreases rest
    {
      assert d in rest;
      rest := rest - {d};
      streak := streak + 1;
      d := d - 1;
    }
  }

  /** The component's `score` computation. */
  method ComputeScore(logs: seq<LogEntry>, now: int) returns (s: Score)
    ensures s == ScoreOf(logs, now)
  {
    if |logs| == 0 {
      return Score(0, 0, 0.0, 0.0, 0);
    }
    var passes := Passes(logs);
    var presence := 0;
    var last := LatestTs(passes);
    if last.Some? && now - last.value <= DayMs {
      presence := 1;
    }
    var days := CollectDays(passes);
    var today := DayIndex(now);
    var streak := CountStreak(days, today);
    var continuity := Continuity(streak);
    var accountability := Accountability(|passes|, |logs|);
    var total := Total(presence, continuity, accountability);
    s := Score(total, presence, continuity, accountability, streak);
  }
}
