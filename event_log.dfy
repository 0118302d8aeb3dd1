/**
 * The on-device log of challenge outcomes: an ordered sequence of entries,
 * most recently appended last, capped at the fifty most recent entries.
 */
module EventLog {

  /** One resolved challenge: its title, the time it was logged (ms since the
      epoch), whether it was passed, and the proof token. */
  datatype LogEntry = LogEntry(title: string, ts: int, pass: bool, proof: string)

  /** Largest number of entries kept, in memory after an append and in storage. */
  const Capacity: nat := 50

  /** `s.slice(-n)` for a positive `n`: the last `n` elements of `s`, or all
      of `s` when it is shorter. (`slice(-0)` would return all of `s`; the
      code only uses `n = 50`.) */
  function TakeLast<T>(s: seq<T>, n: nat): (r: seq<T>)
    requires n > 0
    ensures |r| == if |s| < n then |s| else n
    ensures forall k :: 0 <= k < |r| ==> r[k] == s[|s| - |r| + k]
  {
    if |s| <= n then s else s[|s| - n..]
  }

  /** `[...prev, entry].slice(-50)`: append one entry and keep the last fifty. */
  function Append(prev: seq<LogEntry>, entry: LogEntry): (r: seq<LogEntry>)
    ensures |r| == if |prev| + 1 < Capacity then |prev| + 1 else Capacity
    ensures r[|r| - 1] == entry
    ensures r[..|r| - 1] == prev[|prev| - (|r| - 1)..]
  {
    var next := TakeLast(prev + [entry], Capacity);
    assert next[..|next| - 1] == prev[|prev| - (|next| - 1)..];
    next
  }

  /** What `saveLogs` writes to storage: the last fifty entries. */
  function Saved(logs: seq<LogEntry>): (r: seq<LogEntry>)
    ensures |r| == if |logs| < Capacity then |logs| else Capacity
    ensures |logs| <= Capacity ==> r == logs
    ensures r == logs[|logs| - |r|..]
  {
    TakeLast(logs, Capacity)
  }

  /** The number of passing entries (`logs.filter(l => l.pass).length`). */
  function PassCount(logs: seq<LogEntry>): (r: nat)
    ensures r <= |logs|
    ensures r == 0 <==> forall i :: 0 <= i < |logs| ==> !logs[i].pass
    ensures r == |logs| <==> forall i :: 0 <= i < |logs| ==> logs[i].pass
  {
    if logs == [] then 0
    else (if logs[|logs| - 1].pass then 1 else 0) + PassCount(logs[..|logs| - 1])
  }

  /** An append never leaves more than fifty entries, whatever the log held before. */
  lemma AppendBounded(prev: seq<LogEntry>, entry: LogEntry)
    ensures 1 <= |Append(prev, entry)| <= Capacity
    ensures |prev| < Capacity ==> Append(prev, entry) == prev + [entry]
  {
  }

  /** On a full log, an append evicts exactly the oldest entry. */
  lemma AppendEvictsOldest(prev: seq<LogEntry>, entry: LogEntry)
    requires |prev| == Capacity
    ensures Append(prev, entry) == prev[1..] + [entry]
  {
  }

  /** Storage agrees with memory after every append: the cap in `saveLogs`
      removes nothing from a log produced by `Append`. */
  lemma SavedAfterAppend(prev: seq<LogEntry>, entry: LogEntry)
    ensures Saved(Append(prev, entry)) == Append(prev, entry)
  {
  }

  /** Passing entries are counted entry by entry: appending adds one exactly
      when the new entry passes, on a log that is not yet full. */
  lemma PassCountAppend(prev: seq<LogEntry>, entry: LogEntry)
    requires |prev| < Capacity
    ensures PassCount(Append(prev, entry)) == PassCount(prev) + (if entry.pass then 1 else 0)
  {
  }
}
