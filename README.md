# SystemTracker event recorder, modelled in Dafny

SystemTracker's Flask backend has one endpoint with real logic, `/api/events`
(`get_events` in `backend/app.py`). Each call runs a Perl script that prints
one event line such as `2024-05-01 12:00:00 - Disk usage high`. The endpoint
strips the line, splits it once at `" - "` into a timestamp and a message, and
appends `{time, message}` to an in-memory list. It keeps that list at 100
entries by dropping the oldest one, then returns the whole list.

The model has three modules:

- `Wrappers` (`wrappers.dfy`): the `Option` type.
- `LineParser` (`line_parser.dfy`), pure. It defines `str.strip()`
  (`SkipForward`, `SkipBackward`, `Strip`) over the characters Python's
  `str.isspace()` accepts, `str.split(sep, 1)` (`FindFrom`, `SplitOnce`) and
  `ParseLine`, which is lines 26-30. Lemmas give round trips and inverses for
  each of them.
- `EventLog` (`event_log.dfy`). It holds the `Event` entry, the specification
  function `Next` (the list after one call, built from `NewEntry`, `Appended`
  and `Capped`), and `Run`/`Entries` for a series of calls. The class
  `EventRecorder` has the `events` field and the method `Record`, which is
  proved to compute `Next`. Lemmas cover the cap, eviction order and the
  sliding window.

The script's result reaches `Record` as plain data: its exit status and its
standard output.

## Model

| member | source | states |
|---|---|---|
| `LineParser.IsWhitespace` | backend/app.py:26 | no ensures: defines the characters `str.strip()` removes, exactly the set CPython's `str.isspace()` accepts |
| `LineParser.SkipForward` | backend/app.py:26 | the forward scan of strip stops at the first non-whitespace character at or after its start (or at the end), having passed only whitespace |
| `LineParser.SkipBackward` | backend/app.py:26 | the backward scan of strip stops just after the last non-whitespace character above its lower bound (or at that bound), having passed only whitespace |
| `LineParser.SkipForwardStopsAt` | backend/app.py:26 | the forward scan stops at every position that is preceded by whitespace only and holds a non-whitespace character, so its stop is unique |
| `LineParser.SkipBackwardStopsAt` | backend/app.py:26 | the backward scan stops at every position that is followed by whitespace only and comes just after a non-whitespace character, so its stop is unique |
| `LineParser.Strip` | backend/app.py:26 | the stripped line is empty or starts and ends with a non-whitespace character |
| `LineParser.StripDropsOnlyWhitespace` | backend/app.py:26 | the stripped line is a contiguous slice of the input, and everything before and after that slice is whitespace |
| `LineParser.StripOfPadded` | backend/app.py:26 | strip returns exactly the core of any whitespace-padded string that starts and ends with non-whitespace, so the slice is the unique one |
| `LineParser.StripIdempotent` | backend/app.py:26 | stripping twice is the same as stripping once |
| `LineParser.FindFrom` | backend/app.py:28 | the index found is an occurrence of the separator with no occurrence before it, and None means no occurrence at all |
| `LineParser.SplitOnce` | backend/app.py:28 | split with maxsplit 1 gives two parts exactly when the separator occurs, and one part (the input itself) otherwise; the two parts joined by the separator give back the input, and the split is at the first occurrence |
| `LineParser.SplitOnceOfJoined` | backend/app.py:28 | a + sep + b splits back to [a, b] when it has no occurrence of sep starting inside a (the inverse of the split) |
| `LineParser.ParseLine` | backend/app.py:26-30 | a line parses exactly when its stripped form contains " - ", and then timestamp + " - " + message equals the stripped line |
| `LineParser.ParseLineSplitsAtFirst` | backend/app.py:28-30 | the timestamp ends where the first " - " of the stripped line starts |
| `LineParser.ParseLineTimeHasNoSeparator` | backend/app.py:28-30 | a parsed timestamp never contains " - " |
| `LineParser.ParseLineFieldsNonEmpty` | backend/app.py:26-30 | both the timestamp and the message of a parsed line are non-empty, because the line is stripped and the separator has a space at each end |
| `LineParser.ParseLineOfJoined` | backend/app.py:26-30 | a timestamp and message that strip keeps, joined by " - " with no earlier " - " and padded with any whitespace, parse back to themselves (the inverse of the parse) |
| `LineParser.ParseLineKeepsLaterSeparators` | backend/app.py:28 | only the first " - " splits: for any timestamp in which time + " " has no " - " (ISO timestamps such as 2024-05-01 12:00:00 included), every later " - " stays in the message |
| `EventLog.NewEntry` | backend/app.py:25-30 | a call produces an entry exactly when the script exits with status 0 and its stripped output contains " - ", and the entry round-trips to the stripped output |
| `EventLog.Appended` | backend/app.py:31 | no ensures: defines the append of the entry, if there is one, at the end of the list |
| `EventLog.Capped` | backend/app.py:34-35 | no ensures: defines the single `pop(0)` made when the list holds more than 100 entries |
| `EventLog.Next` | backend/app.py:25-35 | no ensures: defines the list after one call, the cap applied after the possible append; `Record` is proved to compute it and the lemmas below state its properties |
| `EventLog.Run` | backend/app.py:25-35 | no ensures: defines the list after a series of calls, the last call last |
| `EventLog.Entries` | backend/app.py:25-31 | no ensures: defines the entries a series of calls records, in call order, with no cap |
| `EventLog.LastNIsSuffix` | backend/app.py:34-35 | the last-n window used to state the cap is a suffix of its input, of length min(length, n) |
| `EventLog.EventRecorder.constructor` | backend/app.py:10 | the list starts empty and within the cap |
| `EventLog.EventRecorder.Record` | backend/app.py:25-37 | the new list is `Next` of the old one, the returned snapshot is the new list, the cap of 100 is kept and the list grows by at most one |
| `EventLog.FailedRunKeepsEvents` | backend/app.py:25-35 | a non-zero exit status leaves a list within the cap unchanged |
| `EventLog.UnparsedLineKeepsEvents` | backend/app.py:26-35 | output with no " - " after stripping leaves a list within the cap unchanged |
| `EventLog.RecordedEntryIsWellFormed` | backend/app.py:26-31 | a recorded entry joins back to the stripped output, and has a non-empty timestamp without " - " and a non-empty message |
| `EventLog.RecordAppendsAtEnd` | backend/app.py:31-35 | the new entry goes last and earlier entries keep their order; the oldest is dropped only when the list already held 100 or more |
| `EventLog.FullListEvictsOldest` | backend/app.py:34-35 | on a full list exactly the oldest entry (index 0) is removed: the result is events[1..] + [entry] |
| `EventLog.NextSize` | backend/app.py:31-35 | from a list within the cap, the size grows by one exactly when an entry is recorded and the list is not full, and otherwise stays the same; it never exceeds 100 |
| `EventLog.RunKeepsMostRecent` | backend/app.py:31-35 | after any series of calls the list is exactly the 100 most recent entries (the starting ones followed by every recorded one), in call order |
| `EventLog.RunFromEmptySize` | backend/app.py:33-35 | starting from the empty list, the size after N recorded entries is min(N, 100) |

## Left out

- The `subprocess.run` of the Perl script (backend/app.py:21-23) is external process I/O. Its exit status and standard output are parameters of `Record`.
- The Flask app, CORS, `jsonify` and the constant `/api/hello` endpoint (backend/app.py:1-15, 39-40) are HTTP plumbing. `Record` returns the list that `jsonify` would serialise.
- `backend/setup.py` is interactive prompts, `.env` writing and `pip install` calls, with no logic to verify.
- `frontend/pd-dashboard/src/App.js` is React UI state and a `fetch` polling loop.
- Concurrent requests that share the `events` list are not modelled. The model has one sequential caller.
- Text decoding of the script's output is not modelled. Output is a sequence of Unicode scalar values, so lone surrogates cannot occur.
