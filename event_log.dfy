/**
 * The recording half of get_events (backend/app.py, lines 10 and 25-35): the
 * module-level `events` list gets at most one {time, message} entry per call
 * and is capped at 100 entries by dropping the oldest one.
 */
module EventLog {
  import opened Wrappers
  import opened LineParser

  /** The most entries the list keeps (line 34). */
  const Capacity: nat := 100

  /** One {"time": ..., "message": ...} entry of the list. */
  datatype Event = Event(time: string, message: string)

  /** What the script run hands back: its exit status and its standard output. */
  datatype ScriptResult = ScriptResult(returnCode: int, stdout: string)

  /**
   * Lines 25-30: the entry one script run produces. There is one exactly
   * when the script succeeded and its stripped output contains " - ".
   */
  function NewEntry(returnCode: int, stdout: string): (e: Option<Event>)
    ensures e.Some? <==> returnCode == 0 && Contains(Strip(stdout), Separator)
    ensures e.Some? ==> e.value.time + Separator + e.value.message == Strip(stdout)
  {
    if returnCode == 0 then
      match ParseLine(stdout)
      case Some((timestamp, msg)) => Some(Event(timestamp, msg))
      case None => None
    else None
  }

  /** Line 31: append the entry, if there is one. */
  function Appended(events: seq<Event>, entry: Option<Event>): seq<Event> {
    match entry
    case Some(e) => events + [e]
    case None => events
  }

  /** Lines 34-35: one pop(0) when the list is longer than Capacity. */
  function Capped(events: seq<Event>): seq<Event> {
    if |events| > Capacity then events[1..] else events
  }

  /** The list after one call of get_events, as a function of the list before it. */
  function Next(events: seq<Event>, returnCode: int, stdout: string): seq<Event> {
    Capped(Appended(events, NewEntry(returnCode, stdout)))
  }

  /** The list after a series of calls, the last call last. */
  function Run(events: seq<Event>, runs: seq<ScriptResult>): seq<Event>
    decreases |runs|
  {
    if runs == [] then events
    else
      var last := runs[|runs| - 1];
      Next(Run(events, runs[..|runs| - 1]), last.returnCode, last.stdout)
  }

  /** Every entry the calls of `runs` produce, in call order. */
  function Entries(runs: seq<ScriptResult>): seq<Event>
    decreases |runs|
  {
    if runs == [] then []
    else
      var last := runs[|runs| - 1];
      Appended(Entries(runs[..|runs| - 1]), NewEntry(last.returnCode, last.stdout))
  }

  /** The last `n` elements of `s` (all of them when there are fewer). */
  function LastN(s: seq<Event>, n: nat): seq<Event> {
    if |s| <= n then s else s[|s| - n..]
  }

  /** The window is a suffix of `s` of length min(|s|, n). */
  lemma LastNIsSuffix(s: seq<Event>, n: nat)
    ensures |LastN(s, n)| == if |s| <= n then |s| else n
    ensures LastN(s, n) == s[|s| - |LastN(s, n)|..]
  {
    if |s| <= n {
      assert s[0..] == s;
    }
  }

  /** The in-memory store of get_events: the module-level `events` list of line 10. */
  class EventRecorder {
    var events: seq<Event>

    ghost predicate Valid()
      reads this
    {
      |events| <= Capacity
    }

    /** Line 10: the list starts empty. */
    constructor ()
      ensures events == [] && Valid()
    {
      events := [];
    }

    /**
     * Lines 25-37, with the script's result given as `returnCode` and `stdout`:
     * record the parsed line, enforce the cap and return the whole list.
     */
    method Record(returnCode: int, stdout: string) returns (snapshot: seq<Event>)
      modifies this
      ensures events == Next(old(events), returnCode, stdout)
      ensures snapshot == events
      ensures old(Valid()) ==> Valid()
      ensures old(Valid()) ==> |events| <= |old(events)| + 1
    {
      ghost var before := events;
      if returnCode == 0 {
        var parts := ParseLine(stdout);
        if parts.Some? {
          var (timestamp, msg) := parts.value;
          events := events + [Event(timestamp, msg)];
        }
      }
      if |events| > Capacity {
        events := events[1..];
      }
      if |before| <= Capacity {
        NextSize(before, returnCode, stdout);
      }
      snapshot := events;
    }
  }

  /** A failed script run adds nothing, and the cap has nothing to remove. */
  lemma FailedRunKeepsEvents(events: seq<Event>, returnCode: int, stdout: string)
    requires returnCode != 0 && |events| <= Capacity
    ensures Next(events, returnCode, stdout) == events
  {
  }

  /** Output without " - " after stripping adds nothing either. */
  lemma UnparsedLineKeepsEvents(events: seq<Event>, stdout: string)
    requires !Contains(Strip(stdout), Separator) && |events| <= Capacity
    ensures Next(events, 0, stdout) == events
  {
  }

  /**
   * A recorded entry round-trips to the stripped output, has a non-empty
   * timestamp free of " - " and a non-empty message.
   */
  lemma RecordedEntryIsWellFormed(returnCode: int, stdout: string)
    ensures NewEntry(returnCode, stdout).Some? ==>
      var e := NewEntry(returnCode, stdout).value;
      e.time + Separator + e.message == Strip(stdout)
      && e.time != [] && e.message != [] && !Contains(e.time, Separator)
  {
    if NewEntry(returnCode, stdout).Some? {
      ParseLineFieldsNonEmpty(stdout);
      ParseLineTimeHasNoSeparator(stdout);
    }
  }

  /**
   * A recorded entry goes last and the earlier entries keep their order; the
   * oldest one goes only when the list was already full.
   */
  lemma RecordAppendsAtEnd(events: seq<Event>, returnCode: int, stdout: string)
    ensures NewEntry(returnCode, stdout).Some? ==>
      var e := NewEntry(returnCode, stdout).value;
      Next(events, returnCode, stdout)
        == if |events| >= Capacity then (events + [e])[1..] else events + [e]
    ensures NewEntry(returnCode, stdout).Some? ==>
      var next := Next(events, returnCode, stdout);
      next != [] && next[|next| - 1] == NewEntry(returnCode, stdout).value
  {
    if NewEntry(returnCode, stdout).Some? {
      var e := NewEntry(returnCode, stdout).value;
      assert Next(events, returnCode, stdout) == Capped(events + [e]);
    }
  }

  /** On a full list, a new entry evicts exactly the oldest one. */
  lemma FullListEvictsOldest(events: seq<Event>, returnCode: int, stdout: string)
    requires |events| == Capacity
    ensures NewEntry(returnCode, stdout).Some? ==>
      Next(events, returnCode, stdout) == events[1..] + [NewEntry(returnCode, stdout).value]
  {
    if NewEntry(returnCode, stdout).Some? {
      var e := NewEntry(returnCode, stdout).value;
      assert Next(events, returnCode, stdout) == Capped(events + [e]);
      CappedFullDropsFirst(events, e);
    }
  }

  lemma CappedFullDropsFirst(events: seq<Event>, e: Event)
    requires |events| == Capacity
    ensures Capped(events + [e]) == events[1..] + [e]
  {
    assert (events + [e])[1..] == events[1..] + [e];
  }

  /** The cap keeps the size at most Capacity, growing by one entry at most. */
  lemma NextSize(events: seq<Event>, returnCode: int, stdout: string)
    requires |events| <= Capacity
    ensures var next := Next(events, returnCode, stdout);
      |next| == if NewEntry(returnCode, stdout).Some? && |events| < Capacity
                then |events| + 1 else |events|
    ensures |Next(events, returnCode, stdout)| <= Capacity
  {
  }

  lemma CappedKeepsLast(s: seq<Event>, entry: Option<Event>)
    ensures Capped(Appended(LastN(s, Capacity), entry)) == LastN(Appended(s, entry), Capacity)
  {
    match entry
    case None =>
    case Some(e) =>
      var w := LastN(s, Capacity);
      if |s| > Capacity {
        assert (w + [e])[1..] == (s + [e])[|s| + 1 - Capacity..];
      }
  }

  /**
   * After any series of calls, starting from a list within the cap, the list
   * holds exactly the most recent Capacity entries, in call order.
   */
  lemma {:induction false} RunKeepsMostRecent(events: seq<Event>, runs: seq<ScriptResult>)
    requires |events| <= Capacity
    ensures Run(events, runs) == LastN(events + Entries(runs), Capacity)
  {
    if runs == [] {
      assert events + [] == events;
    } else {
      var front := runs[..|runs| - 1];
      var last := runs[|runs| - 1];
      var entry := NewEntry(last.returnCode, last.stdout);
      assert Run(events, runs) == Capped(Appended(Run(events, front), entry));
      assert Entries(runs) == Appended(Entries(front), entry);
      RunKeepsMostRecent(events, front);
      CappedKeepsLast(events + Entries(front), entry);
      AppendedAfter(events, Entries(front), entry);
    }
  }

  lemma AppendedAfter(events: seq<Event>, later: seq<Event>, entry: Option<Event>)
    ensures events + Appended(later, entry) == Appended(events + later, entry)
  {
    match entry
    case None =>
    case Some(e) =>
      assert events + (later + [e]) == (events + later) + [e];
  }

  /** From an empty list, the size after the calls is min(recorded entries, Capacity). */
  lemma RunFromEmptySize(runs: seq<ScriptResult>)
    ensures |Run([], runs)| == if |Entries(runs)| <= Capacity then |Entries(runs)| else Capacity
  {
    RunKeepsMostRecent([], runs);
    assert [] + Entries(runs) == Entries(runs);
  }
}
