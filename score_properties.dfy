/**
 * What the score of a non-empty log means, field by field, stated in terms of
 * the log itself rather than the intermediate sets and counts.
 */
module ScoreProperties {
  import opened EventLog
  import opened Scoring

  /** The fields of a non-empty log's score, as `ScoreOf` builds them. */
  lemma ScoreFields(logs: seq<LogEntry>, now: int)
    requires logs != []
    ensures ScoreOf(logs, now).presence == Presence(Passes(logs), now)
    ensures ScoreOf(logs, now).streak == StreakLength(PassDays(logs), DayIndex(now))
    ensures ScoreOf(logs, now).continuity == Continuity(ScoreOf(logs, now).streak)
    ensures ScoreOf(logs, now).accountability == Accountability(|Passes(logs)|, |logs|)
    ensures ScoreOf(logs, now).total ==
      Total(ScoreOf(logs, now).presence, ScoreOf(logs, now).continuity, ScoreOf(logs, now).accountability)
  {
  }

  /** A non-empty log's presence is 1 exactly when some pass is at most a
      day old at `now`. */
  lemma ScorePresence(logs: seq<LogEntry>, now: int)
    requires logs != []
    ensures ScoreOf(logs, now).presence == 1 <==>
      exists i :: 0 <= i < |logs| && logs[i].pass && now - logs[i].ts <= DayMs
  {
  }

  /** A non-empty log's streak counts the days up to today that all hold a
      pass and stops at the first day without one; it never exceeds the
      number of distinct pass days, and it is 0 when today has no pass. */
  lemma ScoreStreak(logs: seq<LogEntry>, now: int)
    requires logs != []
    ensures forall d :: DayIndex(now) - ScoreOf(logs, now).streak < d <= DayIndex(now) ==> PassedOn(logs, d)
    ensures !PassedOn(logs, DayIndex(now) - ScoreOf(logs, now).streak)
    ensures ScoreOf(logs, now).streak <= |PassDays(logs)|
    ensures !PassedOn(logs, DayIndex(now)) ==> ScoreOf(logs, now).streak == 0
  {
    var today := DayIndex(now);
    ScoreFields(logs, now);
    var streak := ScoreOf(logs, now).streak;
    StreakIsLongestRun(PassDays(logs), today);
    forall d | today - streak < d <= today ensures PassedOn(logs, d) {
      PassDaysMembers(logs, d);
    }
    PassDaysMembers(logs, today - streak);
    PassDaysMembers(logs, today);
  }

  /** A non-empty log's accountability is its pass rate. */
  lemma ScoreAccountability(logs: seq<LogEntry>, now: int)
    requires logs != []
    ensures ScoreOf(logs, now).accountability == (PassCount(logs) as real) / (|logs| as real)
  {
    ScoreFields(logs, now);
    PassesLength(logs);
  }

  /** A non-empty log's continuity is a fifth of its streak, capped at five
      days, and it is full exactly when each of the last five days up to
      today holds a pass. */
  lemma ScoreContinuity(logs: seq<LogEntry>, now: int)
    requires logs != []
    ensures ScoreOf(logs, now).continuity * 5.0 == Min5(ScoreOf(logs, now).streak) as real
    ensures ScoreOf(logs, now).continuity == 1.0 <==>
      forall d :: DayIndex(now) - 5 < d <= DayIndex(now) ==> PassedOn(logs, d)
  {
    var today := DayIndex(now);
    var streak := ScoreOf(logs, now).streak;
    ScoreFields(logs, now);
    ScaledContinuity(streak);
    ScoreStreak(logs, now);
    if streak < 5 {
      assert !PassedOn(logs, today - streak);
    }
  }

  /** A non-empty log's total is the rounded weighted sum, in integer form. */
  lemma ScoreTotal(logs: seq<LogEntry>, now: int)
    requires logs != []
    ensures ScoreOf(logs, now).total ==
      IntegerTotal(ScoreOf(logs, now).presence, ScoreOf(logs, now).streak, PassCount(logs), |logs|)
  {
    ScoreFields(logs, now);
    PassesLength(logs);
    PresenceIff(logs, now);
    TotalIntegerForm(ScoreOf(logs, now).presence, ScoreOf(logs, now).streak, PassCount(logs), |logs|);
  }
}
