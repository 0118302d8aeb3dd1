/**
 * The challenge lifecycle: the catalog, the countdown, the guards that
 * decide whether a submission is accepted, and the component state that
 * `startChallenge`, `submit` and `clearAll` update.
 */
module Lifecycle {
  import opened Wrappers
  import opened EventLog
  import opened Text
  import opened Scoring

  /** A catalog entry: its identifier and title (prompt and rationale text omitted). */
  datatype Challenge = Challenge(id: string, title: string)

  /** The fixed catalog of ten challenges. */
  const Catalog: seq<Challenge> := [
    Challenge("scent", "Describe the nearest scent now"),
    Challenge("texture", "Touch & describe texture"),
    Challenge("move-object", "Move object low \U{2192} high"),
    Challenge("ambient-audio", "Capture ambient sound clue"),
    Challenge("color", "Find a specific color"),
    Challenge("handwritten", "Handwrite today\U{2019}s date"),
    Challenge("temperature", "Cold/warm contrast"),
    Challenge("outside", "Step outside / window check"),
    Challenge("word-heard", "Last word you heard"),
    Challenge("three-taps", "Tap three surfaces")
  ]

  /** A challenge expires this many milliseconds after it is issued. */
  const ExpiryMs: nat := 30000

  /** Fewest UTF-16 code units a trimmed response needs in order to pass. */
  const MinResponseLength: nat := 12

  /** The status line: which action last ran and how it ended. */
  datatype Status =
    | Idle          // before any action
    | Started       // a challenge was issued
    | NoChallenge   // submit refused: nothing was issued
    | Expired       // submit refused: the expiry time has passed
    | TooShort      // submit refused: a pass needs more detail
    | Submitted     // submit accepted with pass = true
    | MarkedFailed  // submit accepted with pass = false
    | Cleared       // the log was cleared

  /** JavaScript truthiness of a nullable number: `null` and `0` are false. */
  predicate Truthy(t: Option<int>) {
    t.Some? && t.value != 0
  }

  /** The countdown: `ceil(max(0, expiresAt - now) / 1000)` whole seconds, or
      `None` when there is no expiry time. */
  function RemainingSeconds(expiresAt: Option<int>, now: int): (r: Option<nat>)
    ensures r.None? <==> !Truthy(expiresAt)
    ensures r.Some? ==>
      var ms := if expiresAt.value - now < 0 then 0 else expiresAt.value - now;
      ms <= r.value * 1000 && (r.value == 0 || (r.value - 1) * 1000 < ms)
  {
    if !Truthy(expiresAt) then None
    else
      var ms := if expiresAt.value - now < 0 then 0 else expiresAt.value - now;
      Some((ms + 999) / 1000)
  }

  /** The countdown for a challenge issued at `start`, read at a tick `now`.
      From the issue time on it never exceeds 30 seconds, reads 30 at the
      issue instant, and reads 0 once the expiry time has passed. The ticker
      refreshes `now` only every 200 ms and issuing does not refresh it, so
      the first reading after issue uses a tick up to a second before
      `start`, and that reading is 31. */
  lemma CountdownAfterStart(start: nat, now: int)
    ensures RemainingSeconds(Some(start + ExpiryMs), now).Some?
    ensures RemainingSeconds(Some(start + ExpiryMs), start) == Some(30)
    ensures now >= start ==> RemainingSeconds(Some(start + ExpiryMs), now).value <= 30
    ensures start - 1000 <= now < start ==> RemainingSeconds(Some(start + ExpiryMs), now) == Some(31)
    ensures now >= start + ExpiryMs ==> RemainingSeconds(Some(start + ExpiryMs), now) == Some(0)
  {
  }

  /** The countdown never goes up as time passes. */
  lemma CountdownNonIncreasing(expiresAt: int, t1: int, t2: int)
    requires expiresAt != 0 && t1 <= t2
    ensures RemainingSeconds(Some(expiresAt), t2).value <= RemainingSeconds(Some(expiresAt), t1).value
  {
  }

  /** The guards of `submit`, in order: no challenge, then expiry (only when
      the expiry time is truthy, and strictly after it), then a pass whose
      trimmed response is shorter than twelve code units. `None` means the
      submission goes through. */
  function Refusal(challenge: Option<Challenge>, expiresAt: Option<int>, response: string, pass: bool, now: int): (r: Option<Status>)
    ensures r.Some? ==> r.value in {NoChallenge, Expired, TooShort}
    ensures r == Some(NoChallenge) <==> challenge.None?
    ensures r == Some(Expired) <==> challenge.Some? && Truthy(expiresAt) && now > expiresAt.value
    ensures r == Some(TooShort) <==>
      challenge.Some? && !(Truthy(expiresAt) && now > expiresAt.value) &&
      pass && Utf16Length(Trim(response)) < MinResponseLength
  {
    if challenge.None? then Some(NoChallenge)
    else if Truthy(expiresAt) && now > expiresAt.value then Some(Expired)
    else if pass && Utf16Length(Trim(response)) < MinResponseLength then Some(TooShort)
    else None
  }

  /** "Mark failed" goes through for any response text while the challenge is live. */
  lemma MarkFailedIgnoresText(c: Challenge, expiresAt: Option<int>, response: string, now: int)
    requires !(Truthy(expiresAt) && now > expiresAt.value)
    ensures Refusal(Some(c), expiresAt, response, false, now).None?
  {
  }

  /** Submitting at the expiry instant itself is still on time; one
      millisecond later it is refused whatever the text or intent. */
  lemma ExpiryIsStrict(c: Challenge, e: int, response: string, pass: bool)
    requires e != 0
    ensures Refusal(Some(c), Some(e), response, pass, e + 1) == Some(Expired)
    ensures Refusal(Some(c), Some(e), response, pass, e) != Some(Expired)
  {
  }

  /** Once `expiresAt` is cleared (as an accepted submission does) the
      expiry guard no longer fires at any time, and the challenge, which is
      kept, can be submitted again. */
  lemma ClearedExpiryNeverExpires(c: Challenge, response: string, pass: bool, now: int)
    ensures Refusal(Some(c), None, response, pass, now) != Some(Expired)
    ensures !pass ==> Refusal(Some(c), None, response, pass, now).None?
  {
  }

  /** A pass is refused exactly when the response, once trimmed, is too short;
      surrounding whitespace never helps. */
  lemma PassNeedsTrimmedDetail(c: Challenge, expiresAt: Option<int>, response: string, now: int)
    requires !(Truthy(expiresAt) && now > expiresAt.value)
    ensures Refusal(Some(c), expiresAt, response, true, now).None? <==>
      Utf16Length(Trim(response)) >= MinResponseLength
    ensures Refusal(Some(c), expiresAt, response, true, now) ==
      Refusal(Some(c), expiresAt, Trim(response), true, now)
  {
    TrimIdempotent(response);
  }

  /** The entry an accepted submission logs: the challenge's title, the time,
      the intent, and the digest of `id|trimmed response|salt|time`. */
  function EntryFor(c: Challenge, response: string, pass: bool, now: nat, salt: string, digest: string -> string): (e: LogEntry)
    ensures e.title == c.title && e.ts == now && e.pass == pass
  {
    LogEntry(c.title, now, pass, digest(ProofInput(c.id, Trim(response), salt, now)))
  }

  /** The component's state. */
  class Session {
    var challenge: Option<Challenge>
    var seed: string
    var expiresAt: Option<int>
    var response: string
    var logs: seq<LogEntry>
    var status: Status

    /** An expiry time exists only for an issued challenge, and is positive. */
    ghost predicate Valid()
      reads this
    {
      expiresAt.Some? ==> challenge.Some? && expiresAt.value > 0
    }

    /** The initial state, with the log read back from storage. */
    constructor (stored: seq<LogEntry>)
      ensures Valid()
      ensures challenge == None && seed == "" && expiresAt == None && response == ""
      ensures logs == stored && status == Idle
    {
      challenge := None;
      seed := "";
      expiresAt := None;
      response := "";
      logs := stored;
      status := Idle;
    }

    /** `startChallenge`: issue catalog entry `pick` with seed suffix
        `suffix` (both drawn at random by the caller) at time `now`. */
    method StartChallenge(pick: nat, suffix: nat, now: nat)
      requires Valid()
      requires pick < |Catalog| && suffix < 9999
      modifies this
      ensures Valid()
      ensures challenge == Some(Catalog[pick])
      ensures seed == Catalog[pick].id + "-" + DecimalString(suffix)
      ensures expiresAt == Some(now + ExpiryMs) && response == ""
      ensures logs == old(logs) && status == Started
    {
      var c := Catalog[pick];
      challenge := Some(c);
      seed := c.id + "-" + DecimalString(suffix);
      expiresAt := Some(now + ExpiryMs);
      response := "";
      status := Started;
    }

    /** Typing in the response box. */
    method Edit(text: string)
      requires Valid()
      modifies this`response
      ensures Valid() && response == text
    {
      response := text;
    }

    /** `submit(pass)` at time `now`, with a fresh random `salt` and the
        SHA-256 hex digest function `digest`. A refused submission changes
        only the status; an accepted one appends one entry, clears the
        expiry time and keeps the challenge and the response text. */
    method Submit(pass: bool, now: nat, salt: string, digest: string -> string) returns (outcome: Status)
      requires Valid()
      modifies this
      ensures Valid()
      ensures status == outcome
      ensures challenge == old(challenge) && seed == old(seed) && response == old(response)
      ensures old(challenge).Some? && old(expiresAt).Some? && now > old(expiresAt).value ==>
        outcome == Expired
      ensures Refusal(old(challenge), old(expiresAt), old(response), pass, now).Some? ==>
        outcome == Refusal(old(challenge), old(expiresAt), old(response), pass, now).value &&
        logs == old(logs) && expiresAt == old(expiresAt)
      ensures Refusal(old(challenge), old(expiresAt), old(response), pass, now).None? ==>
        outcome == (if pass then Submitted else MarkedFailed) &&
        expiresAt == None &&
        logs == Append(old(logs), EntryFor(old(challenge).value, old(response), pass, now, salt, digest))
    {
      var refusal := Refusal(challenge, expiresAt, response, pass, now);
      if refusal.Some? {
        outcome := refusal.value;
        status := outcome;
      } else {
        outcome := Accept(pass, now, salt, digest);
      }
    }

    /** The accepted branch of `submit`: log the entry, report it, and clear
        the expiry time. */
    method Accept(pass: bool, now: nat, salt: string, digest: string -> string) returns (outcome: Status)
      requires Valid() && challenge.Some?
      modifies this`logs, this`expiresAt, this`status
      ensures Valid()
      ensures outcome == (if pass then Submitted else MarkedFailed) && status == outcome
      ensures expiresAt == None
      ensures logs == Append(old(logs), EntryFor(challenge.value, response, pass, now, salt, digest))
    {
      var entry := EntryFor(challenge.value, response, pass, now, salt, digest);
      logs := Append(logs, entry);
      outcome := if pass then Submitted else MarkedFailed;
      status := outcome;
      expiresAt := None;
    }

    /** `clearAll`: empty the log; the challenge is left as it is. */
    method ClearAll()
      requires Valid()
      modifies this`logs, this`status
      ensures Valid() && logs == [] && status == Cleared
    {
      logs := [];
      status := Cleared;
    }

    /** The score shown for the current log at time `now`. */
    method CurrentScore(now: int) returns (s: Score)
      ensures s == ScoreOf(logs, now)
    {
      s := ComputeScore(logs, now);
    }
  }

  /** A run of the component: issue a challenge, type a detailed response
      and submit it on time, then submit it again at any later moment, even
      long past the expiry time. Both submissions are accepted and logged,
      since an accepted submission clears the expiry time but not the challenge. */
  method SubmitTwice(stored: seq<LogEntry>, pick: nat, suffix: nat, start: nat, text: string,
                     t1: nat, t2: nat, salt1: string, salt2: string, digest: string -> string)
    returns (first: Status, second: Status, logged: seq<LogEntry>)
    requires pick < |Catalog| && suffix < 9999
    requires start <= t1 <= start + ExpiryMs
    requires Utf16Length(Trim(text)) >= MinResponseLength
    ensures first == Submitted && second == Submitted
    ensures |stored| + 2 <= Capacity ==> |logged| == |stored| + 2
    ensures |logged| >= 1
    ensures logged[|logged| - 1].title == Catalog[pick].title && logged[|logged| - 1].ts == t2
  {
    var c := Catalog[pick];
    var session := new Session(stored);
    session.StartChallenge(pick, suffix, start);
    session.Edit(text);
    assert session.challenge == Some(c) && session.expiresAt == Some(start + ExpiryMs);
    assert Refusal(Some(c), Some(start + ExpiryMs), text, true, t1).None?;
    first := session.Submit(true, t1, salt1, digest);
    assert session.challenge == Some(c) && session.expiresAt == None && session.response == text;
    assert Refusal(Some(c), None, text, true, t2).None?;
    second := session.Submit(true, t2, salt2, digest);
    logged := session.logs;
  }

  /** `clearAll` followed by a read of the score gives the empty-log score. */
  method ScoreAfterClear(stored: seq<LogEntry>, now: nat) returns (s: Score)
    ensures s == Score(0, 0, 0.0, 0.0, 0)
  {
    var session := new Session(stored);
    session.ClearAll();
    s := session.CurrentScore(now);
  }
}
